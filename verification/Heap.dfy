/** The user heap (user/ulib/stdlib.c): a circular free list in order of address, without neighbours left unjoined.
    Memory is counted in units of one header, 8 bytes; unit 0 is the static header `base`, below all others. */
module Heap {
  import opened Options

  const UNIT := 8
  const MORE := 4096   // the least that morecore asks for

  // ---------------------------------------------------------------- the free list

  /** The place after place i of n, going round. */
  function After(i: nat, n: nat): (j: nat)
    requires i < n
    ensures j < n
  {
    if i + 1 == n then 0 else i + 1
  }

  predicate InRange(fl: seq<nat>, n: nat) {
    forall i :: 0 <= i < |fl| ==> fl[i] < n
  }

  /** `fl` lists the free blocks: `base` first, then in order of address, with a gap between any two, below brk; and
      the links go round just so. */
  ghost predicate ListOk(fl: seq<nat>, ptr: seq<nat>, size: seq<nat>, brk: nat) {
    && |fl| > 0 && |ptr| == |size| && brk <= |size| && InRange(fl, |size|)
    && fl[0] == 0 && size[0] == 0
    && (forall i :: 0 <= i < |fl| ==> ptr[fl[i]] == fl[After(i, |fl|)])
    && (forall i :: 1 <= i < |fl| ==> size[fl[i]] > 0 && fl[i] + size[fl[i]] <= brk)
    && (forall i, j :: 0 <= i < j < |fl| ==> fl[i] + size[fl[i]] < fl[j])
  }

  /** A block of n units from b on has nothing of a free block in it. */
  ghost predicate Clear(fl: seq<nat>, size: seq<nat>, b: nat, n: nat)
    requires InRange(fl, |size|)
  {
    forall i :: 0 <= i < |fl| ==> b + n <= fl[i] || (fl[i] + size[fl[i]] <= b && fl[i] < b)
  }

  /** Unit u is one of the n units from b on. */
  predicate Within(b: nat, n: nat, u: nat) {
    b <= u < b + n
  }

  ghost predicate InFree(fl: seq<nat>, size: seq<nat>, u: nat)
    requires InRange(fl, |size|)
  {
    exists i :: 0 <= i < |fl| && Within(fl[i], size[fl[i]], u)
  }

  /** Place t is the last free block below b. */
  ghost predicate Before(fl: seq<nat>, t: nat, b: nat) {
    t < |fl| && fl[t] < b && forall i :: t < i < |fl| ==> b < fl[i]
  }

  // ---------------------------------------------------------------- putting a block into the list

  datatype Lists = Lists(fl: seq<nat>, ptr: seq<nat>, size: seq<nat>)

  /** The two joins at the end of free, for the block b behind the free block of place t. */
  function JoinNext(s: Lists, t: nat, b: nat): (r: Lists)
    requires t < |s.fl| && |s.ptr| == |s.size| && InRange(s.fl, |s.size|) && b < |s.size|
    ensures |r.ptr| == |r.size| == |s.size| && |r.fl| >= |s.fl|
  {
    var p := s.fl[t];
    var q := s.fl[After(t, |s.fl|)];
    if b + s.size[b] == q && t + 1 < |s.fl| then
      Lists(s.fl[..t + 1] + [b] + s.fl[t + 2..], s.ptr[b := s.ptr[q]], s.size[b := s.size[b] + s.size[q]])
    else
      Lists(s.fl[..t + 1] + [b] + s.fl[t + 1..], s.ptr[b := q], s.size)
  }

  function JoinPrev(s: Lists, p: nat, t: nat, b: nat): (r: Lists)
    requires t + 1 < |s.fl| && |s.ptr| == |s.size| && p < |s.size| && b < |s.size|
    ensures |r.ptr| == |r.size| == |s.size|
  {
    if p + s.size[p] == b then
      Lists(s.fl[..t + 1] + s.fl[t + 2..], s.ptr[p := s.ptr[b]], s.size[p := s.size[p] + s.size[b]])
    else Lists(s.fl, s.ptr[p := b], s.size)
  }

  ghost predicate Basics(s: Lists, brk: nat) {
    |s.fl| > 0 && |s.ptr| == |s.size| && brk <= |s.size| && InRange(s.fl, |s.size|) && s.fl[0] == 0 && s.size[0] == 0
  }

  /** The links go round, that of place t excepted. */
  ghost predicate Links(s: Lists, t: int)
    requires |s.ptr| == |s.size| && InRange(s.fl, |s.size|)
  {
    forall i :: 0 <= i < |s.fl| && i != t ==> s.ptr[s.fl[i]] == s.fl[After(i, |s.fl|)]
  }

  ghost predicate Sizes(s: Lists, brk: nat)
    requires InRange(s.fl, |s.size|)
  {
    forall i :: 1 <= i < |s.fl| ==> s.size[s.fl[i]] > 0 && s.fl[i] + s.size[s.fl[i]] <= brk
  }

  /** Gaps between any two blocks, but place t may touch the next. */
  ghost predicate Gaps(s: Lists, t: int)
    requires InRange(s.fl, |s.size|)
  {
    forall i, j :: 0 <= i < j < |s.fl| ==>
      s.fl[i] < s.fl[j] && (s.fl[i] + s.size[s.fl[i]] < s.fl[j] || (i == t && j == t + 1 && s.fl[i] + s.size[s.fl[i]] == s.fl[j]))
  }

  /** In between: b is in the list, but not yet linked from the block before it, and it may touch that block. */
  ghost predicate HalfOk(s: Lists, t: nat, b: nat, brk: nat) {
    t + 1 < |s.fl| && s.fl[t + 1] == b && Basics(s, brk) && Links(s, t) && Sizes(s, brk) && Gaps(s, t)
  }

  ghost predicate Insertable(s: Lists, t: nat, b: nat, brk: nat) {
    && Basics(s, brk) && Links(s, -1) && Sizes(s, brk) && Gaps(s, -1) && Before(s.fl, t, b)
    && 0 < b < |s.size| && s.size[b] > 0 && b + s.size[b] <= brk && Clear(s.fl, s.size, b, s.size[b])
  }

  lemma ListParts(s: Lists, brk: nat)
    ensures ListOk(s.fl, s.ptr, s.size, brk) <==> Basics(s, brk) && Links(s, -1) && Sizes(s, brk) && Gaps(s, -1)
  {
    if Basics(s, brk) && Links(s, -1) && Sizes(s, brk) && Gaps(s, -1) {
      assert forall i :: 0 <= i < |s.fl| ==> s.ptr[s.fl[i]] == s.fl[After(i, |s.fl|)];
    }
  }

  /** Which place of the list before the insertion of b at place t + 1 place i of the new one was, b's own excepted;
      `cut` places behind it were taken away. */
  function Old(i: nat, t: nat, cut: nat): nat
    requires i != t + 1
  {
    if i <= t then i else i - 1 + cut
  }

  /** r is s with b put in behind place t, the block after it joined to b if cut is 1. */
  ghost predicate Inserted(s: Lists, r: Lists, t: nat, b: nat, brk: nat, cut: nat) {
    && Insertable(s, t, b, brk) && cut <= 1 && |r.fl| == |s.fl| + 1 - cut && |r.size| == |s.size| && t + cut < |s.fl|
    && r.fl[t + 1] == b && (forall i :: 0 <= i < |r.fl| && i != t + 1 ==> r.fl[i] == s.fl[Old(i, t, cut)])
    && (forall u :: 0 <= u < |s.size| && u != b ==> r.size[u] == s.size[u])
    && r.size[b] == s.size[b] + (if cut == 1 then s.size[s.fl[t + 1]] else 0)
    && (if cut == 1 then b + s.size[b] == s.fl[t + 1] else t + 1 < |s.fl| ==> b + s.size[b] != s.fl[t + 1])
  }

  lemma InsertPlace(s: Lists, r: Lists, t: nat, b: nat, brk: nat, cut: nat, i: nat)
    requires Inserted(s, r, t, b, brk, cut) && i < |r.fl|
    ensures r.fl[i] < |r.size| && (i != t + 1 ==> r.fl[i] != b && r.size[r.fl[i]] == s.size[r.fl[i]])
    ensures i > 0 ==> r.size[r.fl[i]] > 0 && r.fl[i] + r.size[r.fl[i]] <= brk
    ensures i <= t ==> r.fl[i] < b && r.fl[i] + r.size[r.fl[i]] <= b && (i < t ==> r.fl[i] + r.size[r.fl[i]] < b)
    ensures i > t + 1 ==> b + r.size[b] < r.fl[i]
  {
    if i <= t {
      assert i < t ==> s.fl[i] + s.size[s.fl[i]] < s.fl[t];
      assert i > 0 ==> s.size[s.fl[i]] > 0;
      assert s.fl[i] < b;
    } else if i > t + 1 {
      var k := Old(i, t, cut);
      assert b < s.fl[k] && s.size[s.fl[k]] > 0;
      if k > t + 1 {
        assert s.fl[t + 1] + s.size[s.fl[t + 1]] < s.fl[k] && b < s.fl[t + 1] && s.size[s.fl[t + 1]] > 0;
      }
    }
  }

  lemma InsertPair(s: Lists, r: Lists, t: nat, b: nat, brk: nat, cut: nat, i: nat, j: nat)
    requires Inserted(s, r, t, b, brk, cut) && i < j < |r.fl| && r.fl[i] < |r.size|
    ensures r.fl[i] < r.fl[j]
    ensures r.fl[i] + r.size[r.fl[i]] < r.fl[j] || (i == t && j == t + 1 && r.fl[i] + r.size[r.fl[i]] == r.fl[j])
  {
    InsertPlace(s, r, t, b, brk, cut, i);
    InsertPlace(s, r, t, b, brk, cut, j);
    if i != t + 1 && j != t + 1 {
      assert s.fl[Old(i, t, cut)] + s.size[s.fl[Old(i, t, cut)]] < s.fl[Old(j, t, cut)];
    }
  }

  lemma InsertOrder(s: Lists, r: Lists, t: nat, b: nat, brk: nat, cut: nat)
    requires Inserted(s, r, t, b, brk, cut)
    ensures InRange(r.fl, |r.size|) && Gaps(r, t) && Sizes(r, brk) && r.fl[0] == 0 && r.size[0] == 0
  {
    forall i | 0 <= i < |r.fl|
      ensures r.fl[i] < |r.size| && (i > 0 ==> r.size[r.fl[i]] > 0 && r.fl[i] + r.size[r.fl[i]] <= brk)
    {
      InsertPlace(s, r, t, b, brk, cut, i);
    }
    forall i, j | 0 <= i < j < |r.fl|
      ensures r.fl[i] < r.fl[j]
      ensures r.fl[i] + r.size[r.fl[i]] < r.fl[j] || (i == t && j == t + 1 && r.fl[i] + r.size[r.fl[i]] == r.fl[j])
    {
      InsertPair(s, r, t, b, brk, cut, i, j);
    }
  }

  lemma JoinNextOk(s: Lists, t: nat, b: nat, brk: nat)
    requires Insertable(s, t, b, brk)
    ensures HalfOk(JoinNext(s, t, b), t, b, brk)
  {
    hide Gaps, Sizes;
    var r := JoinNext(s, t, b);
    var cut: nat := if t + 1 < |s.fl| && b + s.size[b] == s.fl[t + 1] then 1 else 0;
    JoinInserted(s, t, b, brk, cut);
    InsertOrder(s, r, t, b, brk, cut);
    JoinLinks(s, t, b, brk);
  }

  lemma JoinInserted(s: Lists, t: nat, b: nat, brk: nat, cut: nat)
    requires Insertable(s, t, b, brk) && cut == if t + 1 < |s.fl| && b + s.size[b] == s.fl[t + 1] then 1 else 0
    ensures Inserted(s, JoinNext(s, t, b), t, b, brk, cut)
  {
    hide Gaps, Sizes, Links;
    var r := JoinNext(s, t, b);
    forall i | 0 <= i < |r.fl| && i != t + 1
      ensures r.fl[i] == s.fl[Old(i, t, cut)]
    {
    }
  }

  lemma NewBlock(s: Lists, t: nat, b: nat, brk: nat)
    requires Insertable(s, t, b, brk)
    ensures forall i :: 0 <= i < |s.fl| ==> s.fl[i] != b
  {
    hide Gaps, Sizes, Links;
  }

  lemma JoinFields(s: Lists, t: nat, b: nat, brk: nat, cut: nat)
    requires Insertable(s, t, b, brk) && cut == if t + 1 < |s.fl| && b + s.size[b] == s.fl[t + 1] then 1 else 0
    ensures JoinNext(s, t, b).ptr == s.ptr[b := if cut == 1 then s.ptr[s.fl[t + 1]] else s.fl[After(t, |s.fl|)]]
  {
    hide Gaps, Sizes, Clear, Links;
  }

  lemma JoinLinks(s: Lists, t: nat, b: nat, brk: nat)
    requires Insertable(s, t, b, brk)
    ensures InRange(JoinNext(s, t, b).fl, |s.size|) && Links(JoinNext(s, t, b), t)
  {
    hide Gaps, Sizes, Clear, JoinNext;
    var r := JoinNext(s, t, b);
    var cut: nat := if t + 1 < |s.fl| && b + s.size[b] == s.fl[t + 1] then 1 else 0;
    JoinInserted(s, t, b, brk, cut);
    JoinFields(s, t, b, brk, cut);
    NewBlock(s, t, b, brk);
    forall i | 0 <= i < |r.fl| && i != t
      ensures r.ptr[r.fl[i]] == r.fl[After(i, |r.fl|)]
    {
      if i != t + 1 {
        assert s.ptr[s.fl[Old(i, t, cut)]] == s.fl[After(Old(i, t, cut), |s.fl|)];
      } else if cut == 1 {
        assert s.ptr[s.fl[t + 1]] == s.fl[After(t + 1, |s.fl|)];
      }
    }
  }

  lemma PrevApart(s: Lists, t: nat, b: nat, brk: nat)
    requires HalfOk(s, t, b, brk) && s.fl[t] + s.size[s.fl[t]] != b
    ensures var r := JoinPrev(s, s.fl[t], t, b); Basics(r, brk) && Links(r, -1) && Sizes(r, brk) && Gaps(r, -1)
  {
    var r := JoinPrev(s, s.fl[t], t, b);
    assert forall i :: 0 <= i < |s.fl| && i != t ==> s.fl[i] != s.fl[t];
  }

  /** b joined to the block before it: place t has grown, place t + 1 is gone. */
  ghost predicate Merged(s: Lists, r: Lists, t: nat, b: nat, brk: nat) {
    && HalfOk(s, t, b, brk) && s.fl[t] + s.size[s.fl[t]] == b
    && |r.fl| == |s.fl| - 1 && |r.ptr| == |r.size| == |s.size|
    && (forall i :: 0 <= i < |r.fl| ==> r.fl[i] == s.fl[if i <= t then i else i + 1])
    && (forall u :: 0 <= u < |s.size| && u != s.fl[t] ==> r.size[u] == s.size[u] && r.ptr[u] == s.ptr[u])
    && r.size[s.fl[t]] == s.size[s.fl[t]] + s.size[b] && r.ptr[s.fl[t]] == s.ptr[b]
  }

  lemma PrevMerged(s: Lists, t: nat, b: nat, brk: nat)
    requires HalfOk(s, t, b, brk) && s.fl[t] + s.size[s.fl[t]] == b
    ensures Merged(s, JoinPrev(s, s.fl[t], t, b), t, b, brk)
  {
    hide Links, Sizes;
    var r := JoinPrev(s, s.fl[t], t, b);
    forall i | 0 <= i < |r.fl|
      ensures r.fl[i] == s.fl[if i <= t then i else i + 1]
    {
    }
  }

  lemma MergedPlace(s: Lists, r: Lists, t: nat, b: nat, brk: nat, i: nat)
    requires Merged(s, r, t, b, brk) && i < |r.fl|
    ensures r.fl[i] < |r.size| && (i != t ==> r.fl[i] != s.fl[t] && r.size[r.fl[i]] == s.size[r.fl[i]])
    ensures i > 0 ==> r.size[r.fl[i]] > 0 && r.fl[i] + r.size[r.fl[i]] <= brk
  {
    hide Links;
    var k := if i <= t then i else i + 1;
    if i < t {
      assert s.fl[i] < s.fl[t];
    } else if i > t {
      assert s.fl[t] < s.fl[k];
    }
    assert s.size[s.fl[t + 1]] > 0;
  }

  lemma MergedLink(s: Lists, r: Lists, t: nat, b: nat, brk: nat, i: nat)
    requires Merged(s, r, t, b, brk) && i < |r.fl| && r.fl[i] < |r.size| && (i != t ==> r.fl[i] != s.fl[t])
    ensures r.ptr[r.fl[i]] == r.fl[After(i, |r.fl|)]
  {
    hide Gaps, Sizes;
    var k := if i <= t then i else i + 1;
    if i == t {
      assert s.ptr[s.fl[t + 1]] == s.fl[After(t + 1, |s.fl|)];
    } else {
      assert s.ptr[s.fl[k]] == s.fl[After(k, |s.fl|)];
    }
  }

  lemma MergedPair(s: Lists, r: Lists, t: nat, b: nat, brk: nat, i: nat, j: nat)
    requires Merged(s, r, t, b, brk) && i < j < |r.fl| && r.fl[i] < |r.size|
    ensures r.fl[i] + r.size[r.fl[i]] < r.fl[j]
  {
    hide Links, Sizes;
    var k, l := if i <= t then i else i + 1, if j <= t then j else j + 1;
    assert s.fl[k] + s.size[s.fl[k]] < s.fl[l];
    if i == t {
      assert s.fl[t + 1] + s.size[s.fl[t + 1]] < s.fl[l];
    } else {
      assert s.fl[k] != s.fl[t] by {
        assert k < t ==> s.fl[k] < s.fl[t];
        assert k > t ==> s.fl[t] < s.fl[k];
      }
    }
  }

  lemma PrevJoined(s: Lists, t: nat, b: nat, brk: nat)
    requires HalfOk(s, t, b, brk) && s.fl[t] + s.size[s.fl[t]] == b
    ensures var r := JoinPrev(s, s.fl[t], t, b); Basics(r, brk) && Links(r, -1) && Sizes(r, brk) && Gaps(r, -1)
  {
    var r := JoinPrev(s, s.fl[t], t, b);
    PrevMerged(s, t, b, brk);
    MergedOk(s, r, t, b, brk);
  }

  lemma MergedOk(s: Lists, r: Lists, t: nat, b: nat, brk: nat)
    requires Merged(s, r, t, b, brk)
    ensures Basics(r, brk) && Links(r, -1) && Sizes(r, brk) && Gaps(r, -1)
  {
    hide Links, Sizes, Gaps, Merged;
    MergedHead(s, r, t, b, brk);
    forall i | 0 <= i < |r.fl|
      ensures r.fl[i] < |r.size| && r.ptr[r.fl[i]] == r.fl[After(i, |r.fl|)]
      ensures i > 0 ==> r.size[r.fl[i]] > 0 && r.fl[i] + r.size[r.fl[i]] <= brk
    {
      MergedPlace(s, r, t, b, brk, i);
      MergedLink(s, r, t, b, brk, i);
    }
    forall i, j | 0 <= i < j < |r.fl|
      ensures r.fl[i] + r.size[r.fl[i]] < r.fl[j]
    {
      MergedPair(s, r, t, b, brk, i, j);
    }
    ListParts(r, brk);
  }

  lemma MergedHead(s: Lists, r: Lists, t: nat, b: nat, brk: nat)
    requires Merged(s, r, t, b, brk)
    ensures |r.fl| > 0 && |r.ptr| == |r.size| && brk <= |r.size| && r.fl[0] == 0 && |r.size| > 0 && r.size[0] == 0
  {
    hide Links, Sizes;
    assert t > 0 ==> s.fl[0] < s.fl[t];
    assert s.fl[t] + s.size[s.fl[t]] == b && b > 0;
  }

  /** free keeps the list in order, closed and without neighbours left unjoined. */
  lemma FreeListOk(s: Lists, t: nat, b: nat, brk: nat)
    requires Insertable(s, t, b, brk)
    ensures var h := JoinNext(s, t, b);
            HalfOk(h, t, b, brk) && h.fl[t] == s.fl[t]
            && var r := JoinPrev(h, s.fl[t], t, b); ListOk(r.fl, r.ptr, r.size, brk)
  {
    JoinNextOk(s, t, b, brk);
    var h := JoinNext(s, t, b);
    if h.fl[t] + h.size[h.fl[t]] == b {
      PrevJoined(h, t, b, brk);
    } else {
      PrevApart(h, t, b, brk);
    }
    ListParts(JoinPrev(h, s.fl[t], t, b), brk);
  }

  // ---------------------------------------------------------------- which units are free

  lemma InsertedUnits(s: Lists, r: Lists, t: nat, b: nat, brk: nat, cut: nat, u: nat)
    requires Inserted(s, r, t, b, brk, cut) && InRange(r.fl, |r.size|)
    requires InFree(s.fl, s.size, u) || Within(b, s.size[b], u)
    ensures InFree(r.fl, r.size, u)
  {
    hide Gaps, Sizes, Links, Clear;
    if Within(b, s.size[b], u) {
      assert Within(r.fl[t + 1], r.size[r.fl[t + 1]], u);
    } else {
      var i :| 0 <= i < |s.fl| && Within(s.fl[i], s.size[s.fl[i]], u);
      var k := if i <= t then i else i + 1 - cut;
      if cut == 1 && i == t + 1 {
        assert Within(r.fl[t + 1], r.size[r.fl[t + 1]], u);
      } else {
        InsertPlace(s, r, t, b, brk, cut, k);
        assert Within(r.fl[k], r.size[r.fl[k]], u);
      }
    }
  }

  lemma InsertedOnly(s: Lists, r: Lists, t: nat, b: nat, brk: nat, cut: nat, u: nat)
    requires Inserted(s, r, t, b, brk, cut) && InRange(r.fl, |r.size|) && InFree(r.fl, r.size, u)
    ensures InFree(s.fl, s.size, u) || Within(b, s.size[b], u)
  {
    var i :| 0 <= i < |r.fl| && Within(r.fl[i], r.size[r.fl[i]], u);
    if i != t + 1 {
      InsertPlace(s, r, t, b, brk, cut, i);
      assert Within(s.fl[Old(i, t, cut)], s.size[s.fl[Old(i, t, cut)]], u);
    } else if cut == 1 && u >= b + s.size[b] {
      assert Within(s.fl[t + 1], s.size[s.fl[t + 1]], u);
    }
  }

  lemma MergedUnits(s: Lists, r: Lists, t: nat, b: nat, brk: nat, u: nat)
    requires Merged(s, r, t, b, brk) && InRange(r.fl, |r.size|)
    ensures InFree(s.fl, s.size, u) ==> InFree(r.fl, r.size, u)
    ensures InFree(r.fl, r.size, u) ==> InFree(s.fl, s.size, u)
  {
    hide Links, Gaps;
    if InFree(s.fl, s.size, u) {
      var i :| 0 <= i < |s.fl| && Within(s.fl[i], s.size[s.fl[i]], u);
      var k := if i <= t then i else i - 1;
      MergedPlace(s, r, t, b, brk, k);
      assert Within(r.fl[k], r.size[r.fl[k]], u);
    }
    if InFree(r.fl, r.size, u) {
      var i :| 0 <= i < |r.fl| && Within(r.fl[i], r.size[r.fl[i]], u);
      MergedPlace(s, r, t, b, brk, i);
      var k := if i < t || (i == t && u < b) then i else i + 1;
      assert Within(s.fl[k], s.size[s.fl[k]], u);
    }
  }

  /** The free units after free are those before and those of the block. */
  lemma FreeUnits(s: Lists, t: nat, b: nat, brk: nat, u: nat)
    requires Insertable(s, t, b, brk)
    ensures var h := JoinNext(s, t, b);
            var r := JoinPrev(h, s.fl[t], t, b);
            InRange(r.fl, |r.size|) && (InFree(r.fl, r.size, u) <==> InFree(s.fl, s.size, u) || Within(b, s.size[b], u))
  {
    hide Gaps, Sizes, Links, Clear, InFree, Within, ListOk, HalfOk, JoinNext;
    FreeListOk(s, t, b, brk);
    var h := JoinNext(s, t, b);
    var r := JoinPrev(h, s.fl[t], t, b);
    ListInRange(r, brk);
    HalfInRange(h, t, b, brk);
    NextUnits(s, t, b, brk, u);
    PrevUnits(h, t, b, brk, u);
  }

  lemma ListInRange(r: Lists, brk: nat)
    requires ListOk(r.fl, r.ptr, r.size, brk)
    ensures InRange(r.fl, |r.size|) && |r.ptr| == |r.size|
  {
  }

  lemma HalfInRange(h: Lists, t: nat, b: nat, brk: nat)
    requires HalfOk(h, t, b, brk)
    ensures t + 1 < |h.fl| && |h.ptr| == |h.size| && h.fl[t] < |h.size| && b < |h.size| && InRange(h.fl, |h.size|)
  {
  }

  lemma NextUnits(s: Lists, t: nat, b: nat, brk: nat, u: nat)
    requires Insertable(s, t, b, brk)
    ensures var h := JoinNext(s, t, b);
            InRange(h.fl, |h.size|) && (InFree(h.fl, h.size, u) <==> InFree(s.fl, s.size, u) || Within(b, s.size[b], u))
  {
    hide Gaps, Sizes, Links, InFree, Within;
    var h := JoinNext(s, t, b);
    var cut: nat := if t + 1 < |s.fl| && b + s.size[b] == s.fl[t + 1] then 1 else 0;
    JoinInserted(s, t, b, brk, cut);
    InsertOrder(s, h, t, b, brk, cut);
    if InFree(s.fl, s.size, u) || Within(b, s.size[b], u) {
      InsertedUnits(s, h, t, b, brk, cut, u);
    }
    if InFree(h.fl, h.size, u) {
      InsertedOnly(s, h, t, b, brk, cut, u);
    }
  }

  lemma PrevUnits(s: Lists, t: nat, b: nat, brk: nat, u: nat)
    requires HalfOk(s, t, b, brk)
    ensures var r := JoinPrev(s, s.fl[t], t, b);
            InRange(r.fl, |r.size|) && (InFree(r.fl, r.size, u) <==> InFree(s.fl, s.size, u))
  {
    hide Gaps, Sizes, Links, InFree, Within;
    var r := JoinPrev(s, s.fl[t], t, b);
    if s.fl[t] + s.size[s.fl[t]] == b {
      PrevJoined(s, t, b, brk);
      PrevMerged(s, t, b, brk);
      MergedUnits(s, r, t, b, brk, u);
    }
  }

  // ---------------------------------------------------------------- taking a block out

  /** All of the free block of place k. */
  function TakeWhole(s: Lists, k: nat): (r: Lists)
    requires 0 < k < |s.fl| && |s.ptr| == |s.size| && InRange(s.fl, |s.size|)
    ensures |r.ptr| == |r.size| == |s.size|
  {
    Lists(s.fl[..k] + s.fl[k + 1..], s.ptr[s.fl[k - 1] := s.ptr[s.fl[k]]], s.size)
  }

  /** The last n units of the free block of place k. */
  function TakeTail(s: Lists, k: nat, n: nat): (r: Lists)
    requires 0 < k < |s.fl| && |s.ptr| == |s.size| && InRange(s.fl, |s.size|) && n < s.size[s.fl[k]]
    requires s.fl[k] + s.size[s.fl[k]] - n < |s.size|
    ensures |r.ptr| == |r.size| == |s.size|
  {
    var p := s.fl[k];
    Lists(s.fl, s.ptr, s.size[p := s.size[p] - n][p + s.size[p] - n := n])
  }

  lemma TakeWholePlaces(s: Lists, k: nat, brk: nat)
    requires ListOk(s.fl, s.ptr, s.size, brk) && 0 < k < |s.fl|
    ensures var r := TakeWhole(s, k);
            && |r.fl| == |s.fl| - 1 && (forall i :: 0 <= i < |r.fl| ==> r.fl[i] == s.fl[if i < k then i else i + 1])
            && (forall i :: 0 <= i < |s.fl| && i != k - 1 ==> s.fl[i] != s.fl[k - 1])
  {
    var r := TakeWhole(s, k);
    forall i | 0 <= i < |r.fl|
      ensures r.fl[i] == s.fl[if i < k then i else i + 1]
    {
    }
  }

  lemma TakeWholeLinks(s: Lists, k: nat, brk: nat)
    requires ListOk(s.fl, s.ptr, s.size, brk) && 0 < k < |s.fl|
    ensures InRange(TakeWhole(s, k).fl, |s.size|) && Links(TakeWhole(s, k), -1)
  {
    hide TakeWhole;
    var r := TakeWhole(s, k);
    TakeWholePlaces(s, k, brk);
    TakeWholeFields(s, k);
    forall i | 0 <= i < |r.fl|
      ensures r.ptr[r.fl[i]] == r.fl[After(i, |r.fl|)]
    {
      var j := if i < k then i else i + 1;
      assert s.ptr[s.fl[j]] == s.fl[After(j, |s.fl|)] && s.ptr[s.fl[k]] == s.fl[After(k, |s.fl|)];
    }
  }

  lemma TakeWholeOk(s: Lists, k: nat, brk: nat)
    requires ListOk(s.fl, s.ptr, s.size, brk) && 0 < k < |s.fl|
    ensures var r := TakeWhole(s, k); ListOk(r.fl, r.ptr, r.size, brk)
  {
    hide TakeWhole, Links;
    var r := TakeWhole(s, k);
    TakeWholePlaces(s, k, brk);
    TakeWholeFields(s, k);
    TakeWholeLinks(s, k, brk);
    ListParts(r, brk);
  }

  lemma TakeWholeFields(s: Lists, k: nat)
    requires 0 < k < |s.fl| && |s.ptr| == |s.size| && InRange(s.fl, |s.size|)
    ensures TakeWhole(s, k).size == s.size && TakeWhole(s, k).ptr == s.ptr[s.fl[k - 1] := s.ptr[s.fl[k]]]
  {
  }

  lemma TakeWholeKeeps(s: Lists, k: nat, brk: nat, u: nat)
    requires ListOk(s.fl, s.ptr, s.size, brk) && 0 < k < |s.fl| && InRange(TakeWhole(s, k).fl, |s.size|)
    requires InFree(s.fl, s.size, u) && !Within(s.fl[k], s.size[s.fl[k]], u)
    ensures InFree(TakeWhole(s, k).fl, s.size, u)
  {
    hide TakeWhole;
    TakeWholePlaces(s, k, brk);
    var i :| 0 <= i < |s.fl| && Within(s.fl[i], s.size[s.fl[i]], u);
    var j := if i < k then i else i - 1;
    assert Within(TakeWhole(s, k).fl[j], s.size[s.fl[i]], u);
  }

  lemma TakeWholeLoses(s: Lists, k: nat, brk: nat, u: nat)
    requires ListOk(s.fl, s.ptr, s.size, brk) && 0 < k < |s.fl| && InRange(TakeWhole(s, k).fl, |s.size|)
    requires InFree(TakeWhole(s, k).fl, s.size, u)
    ensures InFree(s.fl, s.size, u) && !Within(s.fl[k], s.size[s.fl[k]], u)
  {
    hide TakeWhole;
    TakeWholePlaces(s, k, brk);
    var i :| 0 <= i < |TakeWhole(s, k).fl| && Within(TakeWhole(s, k).fl[i], s.size[TakeWhole(s, k).fl[i]], u);
    var j := if i < k then i else i + 1;
    assert Within(s.fl[j], s.size[s.fl[j]], u);
    assert j < k ==> s.fl[j] + s.size[s.fl[j]] < s.fl[k];
    assert k < j ==> s.fl[k] + s.size[s.fl[k]] < s.fl[j];
  }

  lemma TakeWholeUnits(s: Lists, k: nat, brk: nat, u: nat)
    requires ListOk(s.fl, s.ptr, s.size, brk) && 0 < k < |s.fl|
    ensures var r := TakeWhole(s, k);
            InRange(r.fl, |r.size|)
            && (InFree(r.fl, r.size, u) <==> InFree(s.fl, s.size, u) && !Within(s.fl[k], s.size[s.fl[k]], u))
  {
    hide TakeWhole, InFree, Within;
    TakeWholeOk(s, k, brk);
    TakeWholeFields(s, k);
    if InFree(TakeWhole(s, k).fl, s.size, u) {
      TakeWholeLoses(s, k, brk, u);
    } else if InFree(s.fl, s.size, u) && !Within(s.fl[k], s.size[s.fl[k]], u) {
      TakeWholeKeeps(s, k, brk, u);
    }
  }

  lemma TakeTailPlaces(s: Lists, k: nat, n: nat, brk: nat)
    requires ListOk(s.fl, s.ptr, s.size, brk) && 0 < k < |s.fl| && 0 < n < s.size[s.fl[k]]
    ensures s.fl[k] + s.size[s.fl[k]] - n < |s.size|
    ensures var b := s.fl[k] + s.size[s.fl[k]] - n;
            forall i :: 0 <= i < |s.fl| ==> s.fl[i] != b && (i != k ==> s.fl[i] != s.fl[k])
  {
    forall i | 0 <= i < |s.fl| && i != k
      ensures s.fl[i] != s.fl[k] + s.size[s.fl[k]] - n && s.fl[i] != s.fl[k]
    {
      assert i < k ==> s.fl[i] + s.size[s.fl[i]] < s.fl[k];
      assert k < i ==> s.fl[k] + s.size[s.fl[k]] < s.fl[i];
    }
  }

  lemma TakeTailOk(s: Lists, k: nat, n: nat, brk: nat)
    requires ListOk(s.fl, s.ptr, s.size, brk) && 0 < k < |s.fl| && 0 < n < s.size[s.fl[k]]
    ensures s.fl[k] + s.size[s.fl[k]] - n < |s.size|
    ensures var r := TakeTail(s, k, n); ListOk(r.fl, r.ptr, r.size, brk)
  {
    TakeTailPlaces(s, k, n, brk);
    var r := TakeTail(s, k, n);
    assert s.fl[0] < s.fl[k];
    forall i | 0 <= i < |s.fl|
      ensures r.size[s.fl[i]] == if i == k then s.size[s.fl[i]] - n else s.size[s.fl[i]]
    {
    }
  }

  lemma TakeTailUnits(s: Lists, k: nat, n: nat, brk: nat, u: nat)
    requires ListOk(s.fl, s.ptr, s.size, brk) && 0 < k < |s.fl| && 0 < n < s.size[s.fl[k]]
    ensures s.fl[k] + s.size[s.fl[k]] - n < |s.size|
    ensures var r := TakeTail(s, k, n);
            InFree(r.fl, r.size, u) <==> InFree(s.fl, s.size, u) && !Within(s.fl[k] + s.size[s.fl[k]] - n, n, u)
  {
    TakeTailPlaces(s, k, n, brk);
    var r := TakeTail(s, k, n);
    forall i | 0 <= i < |s.fl|
      ensures r.size[s.fl[i]] == if i == k then s.size[s.fl[i]] - n else s.size[s.fl[i]]
    {
    }
    if InFree(r.fl, r.size, u) {
      var i :| 0 <= i < |r.fl| && Within(r.fl[i], r.size[r.fl[i]], u);
      assert Within(s.fl[i], s.size[s.fl[i]], u);
      assert i < k ==> s.fl[i] + s.size[s.fl[i]] < s.fl[k];
      assert k < i ==> s.fl[k] + s.size[s.fl[k]] < s.fl[i];
    }
    if InFree(s.fl, s.size, u) && !Within(s.fl[k] + s.size[s.fl[k]] - n, n, u) {
      var i :| 0 <= i < |s.fl| && Within(s.fl[i], s.size[s.fl[i]], u);
      assert Within(r.fl[i], r.size[r.fl[i]], u);
    }
  }

  // ---------------------------------------------------------------- blocks in use

  /** Blocks in use, by their first unit: inside the memory got, with their size in their header, apart from one another
      and from every free block. */
  ghost predicate LiveOk(live: map<nat, nat>, fl: seq<nat>, size: seq<nat>, brk: nat)
    requires InRange(fl, |size|) && brk <= |size|
  {
    && (forall b :: b in live ==> 0 < b && live[b] > 0 && b + live[b] <= brk && size[b] == live[b] && Clear(fl, size, b, live[b]))
    && (forall b, c :: b in live && c in live && b != c ==> b + live[b] <= c || c + live[c] <= b)
  }

  ghost predicate InLive(live: map<nat, nat>, u: nat) {
    exists b :: b in live && Within(b, live[b], u)
  }

  /** Every unit that sbrk ever gave is free or in use, and none else is. */
  ghost predicate Conserved(got: set<nat>, live: map<nat, nat>, fl: seq<nat>, size: seq<nat>)
    requires InRange(fl, |size|)
  {
    forall u: nat :: u in got <==> InFree(fl, size, u) || InLive(live, u)
  }

  /** No unit is both free and in use. */
  lemma NotBoth(live: map<nat, nat>, fl: seq<nat>, size: seq<nat>, brk: nat, u: nat)
    requires InRange(fl, |size|) && brk <= |size| && LiveOk(live, fl, size, brk)
    ensures !(InFree(fl, size, u) && InLive(live, u))
  {
  }

  /** A block none of whose units is free is clear of the free list. */
  lemma ClearByUnits(s: Lists, brk: nat, b: nat, n: nat)
    requires ListOk(s.fl, s.ptr, s.size, brk) && 0 < b && n > 0 && forall u :: Within(b, n, u) ==> !InFree(s.fl, s.size, u)
    ensures Clear(s.fl, s.size, b, n)
  {
    forall i | 0 <= i < |s.fl|
      ensures b + n <= s.fl[i] || (s.fl[i] + s.size[s.fl[i]] <= b && s.fl[i] < b)
    {
      if i > 0 {
        var u := if b <= s.fl[i] then s.fl[i] else b;
        assert Within(b, n, u) ==> !InFree(s.fl, s.size, u);
        assert Within(s.fl[i], s.size[s.fl[i]], u) ==> InFree(s.fl, s.size, u);
      }
    }
  }

  /** A free block that starts or ends in a block in use would share a unit with it. */
  lemma ClearUnits(s: Lists, brk: nat, b: nat, n: nat, u: nat)
    requires ListOk(s.fl, s.ptr, s.size, brk) && Clear(s.fl, s.size, b, n) && Within(b, n, u)
    ensures !InFree(s.fl, s.size, u)
  {
  }
}
