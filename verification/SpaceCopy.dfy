/** fork's copy of an address space (vm_copycurr) and the ranges that vm_unmap clears. */
module SpaceCopy {
  import opened PageTables
  import opened AddressSpaces
  import opened SpaceOps

  // ---------------------------------------------------------------- vm_unmap of a range

  function UnmapRange(m: Mem, d: nat, v: nat, n: nat): (r: Mem)
    requires Sized(m) && d < PHY_PAGE && v + n <= PAGES
    ensures Sized(r)
  {
    if n == 0 then m else UnmapPage(UnmapRange(m, d, v, n - 1), d, v + n - 1)
  }

  function MappedCount(m: Mem, d: nat, v: nat, n: nat): nat
    requires Sized(m) && d < PHY_PAGE && v + n <= PAGES
  {
    if n == 0 then 0 else MappedCount(m, d, v, n - 1) + (if ViewOf(m, d, v + n - 1).Mapped? then 1 else 0)
  }

  ghost predicate RangeGone(m: Mem, r: Mem, d: nat, v: nat, n: nat)
    requires Sized(m) && d < PHY_PAGE && PHY_PAGE <= v && v + n <= PAGES
  {
    && WF(r) && IsDir(r, d) && |r.free| == |m.free| + MappedCount(m, d, v, n)
    && (forall v1 :: v <= v1 < v + n ==> ViewOf(r, d, v1) == Unmapped)
    && (forall d1: nat, v1: nat :: IsDir(m, d1) && UserPage(v1) && !(d1 == d && v <= v1 < v + n) ==> SameView(m, r, d1, v1))
  }

  /** vm_unmap clears its range and nothing else, and every page that was mapped there is free again. */
  lemma {:induction false} UnmapRangeUnmaps(m: Mem, d: nat, v: nat, n: nat)
    requires WF(m) && IsDir(m, d) && PHY_PAGE <= v && v + n <= PAGES
    ensures RangeGone(m, UnmapRange(m, d, v, n), d, v, n)
  {
    hide WF, ViewOf, UnmapPage;
    if n > 0 {
      UnmapRangeUnmaps(m, d, v, n - 1);
      var q := UnmapRange(m, d, v, n - 1);
      UnmapPageUnmaps(q, d, v + n - 1);
      GoneStep(m, q, UnmapRange(m, d, v, n), d, v, n);
    }
  }

  lemma GoneStep(m: Mem, q: Mem, r: Mem, d: nat, v: nat, n: nat)
    requires Sized(m) && IsDir(m, d) && PHY_PAGE <= v && 0 < n && v + n <= PAGES
    requires RangeGone(m, q, d, v, n - 1) && PageGone(q, r, d, v + n - 1)
    ensures RangeGone(m, r, d, v, n)
  {
    hide WF, ViewOf, UnmapPage;
    var last := v + n - 1;
    assert SameView(m, q, d, last);
    forall v1 | v <= v1 < v + n
      ensures ViewOf(r, d, v1) == Unmapped
    {
      if v1 < last {
        assert SameView(q, r, d, v1);
      }
    }
    forall d1: nat, v1: nat | IsDir(m, d1) && UserPage(v1) && !(d1 == d && v <= v1 < v + n)
      ensures SameView(m, r, d1, v1)
    {
      assert SameView(m, q, d1, v1) && SameView(q, r, d1, v1);
    }
  }

  // ---------------------------------------------------------------- fork

  /** One turn of vm_copycurr's loop. */
  ghost function CopyPage(m: Mem, src: nat, dst: nat, v: nat): Mem {
    if Sized(m) && src < PHY_PAGE && v < PAGES && Present(Pte(m, src, v)) then
      FillFrom(MapStep(m, dst, v, Flags(Pte(m, src, v))), src, dst, v)
    else m
  }

  /** memcpy from the page of v in src to that in dst. */
  function FillFrom(q: Mem, src: nat, dst: nat, v: nat): Mem {
    if Sized(q) && src < PHY_PAGE && dst < PHY_PAGE && v < PAGES
       && PageOf(Pte(q, dst, v)) < PHY_PAGE && PageOf(Pte(q, src, v)) < PHY_PAGE
    then q.(pages := q.pages[PageOf(Pte(q, dst, v)) := q.pages[PageOf(Pte(q, src, v))]])
    else q
  }

  lemma FillFromFills(q: Mem, src: nat, dst: nat, v: nat)
    requires WF(q) && IsDir(q, src) && IsDir(q, dst) && src != dst && UserPage(v)
    requires ViewOf(q, src, v).Mapped? && ViewOf(q, dst, v).Mapped?
    ensures var r := FillFrom(q, src, dst, v);
            && WF(r) && IsDir(r, dst) && r.use == q.use && r.free == q.free && r.kpt == q.kpt
            && ViewOf(r, dst, v) == ViewOf(q, dst, v).(content := ViewOf(q, src, v).content)
            && r.pages[dst] == q.pages[dst]
            && (forall p :: 0 <= p < PHY_PAGE && q.use[p] == Kernel ==> r.pages[p] == q.pages[p])
    ensures forall d1: nat, v1: nat :: IsDir(q, d1) && UserPage(v1) && !(d1 == dst && v1 == v) ==>
              SameView(q, FillFrom(q, src, dst, v), d1, v1)
  {
    hide WF, ViewOf, Make, OrFlags, Or3, Covers, And3;
    ViewPlain(q, src, v);
    ViewPlain(q, dst, v);
    var r, f := FillFrom(q, src, dst, v), PageOf(Pte(q, dst, v));
    ChangesFrameKeeps(q, r, dst, v / NR, v % NR, f);
    ChangesFrameView(q, r, dst, v / NR, v % NR, f, dst, v);
    forall d1: nat, v1: nat | IsDir(q, d1) && UserPage(v1) && !(d1 == dst && v1 == v)
      ensures SameView(q, r, d1, v1)
    {
      ChangesFrameView(q, r, dst, v / NR, v % NR, f, d1, v1);
      if v1 / NR == v / NR && v1 % NR == v % NR {
        SameIndex(v, v1);
      }
    }
  }

  ghost predicate PageCopied(m: Mem, r: Mem, src: nat, dst: nat, v: nat)
    requires Sized(m) && src < PHY_PAGE && dst < PHY_PAGE && v < PAGES
  {
    && WF(r) && IsDir(r, dst) && IsDir(r, src) && Grew(m, r, dst)
    && ViewOf(r, dst, v) == ViewOf(m, src, v)
    && |r.free| == |m.free| - (if ViewOf(m, src, v).Mapped? then Needs(m, dst, v) else 0)
    && (forall d1: nat, v1: nat :: IsDir(m, d1) && UserPage(v1) && !(d1 == dst && v1 == v) ==> SameView(m, r, d1, v1))
    && (forall i :: 0 <= i < NR ==>
          (Present(r.pages[dst][i]) <==> Present(m.pages[dst][i]) || (ViewOf(m, src, v).Mapped? && i == v / NR)))
  }

  /** A page that src has and dst lacks is copied, flags and content, and nothing else changes. */
  lemma CopyPageCopies(m: Mem, src: nat, dst: nat, v: nat)
    requires WF(m) && IsDir(m, src) && IsDir(m, dst) && src != dst && UserPage(v) && ViewOf(m, dst, v) == Unmapped
    requires ViewOf(m, src, v).Mapped? ==> Needs(m, dst, v) <= |m.free|
    ensures PageCopied(m, CopyPage(m, src, dst, v), src, dst, v)
  {
    hide WF, ViewOf, Make, OrFlags, Or3, Covers, And3, Pte, Needs, MapPage, FillFrom;
    ViewPlain(m, src, v);
    var r := CopyPage(m, src, dst, v);
    if Present(Pte(m, src, v)) {
      var prot := Flags(Pte(m, src, v));
      MapPageMaps(m, dst, v, prot);
      MapPageGrows(m, dst, v, prot);
      var q := MapPage(m, dst, v, prot);
      assert SameView(m, q, src, v);
      FillFromFills(q, src, dst, v);
      forall d1: nat, v1: nat | IsDir(m, d1) && UserPage(v1) && !(d1 == dst && v1 == v)
        ensures SameView(m, r, d1, v1)
      {
        assert SameView(m, q, d1, v1) && SameView(q, r, d1, v1);
      }
    }
  }

  /** The first n pages above PHY_MEM of src, copied to dst. */
  ghost function CopyRange(m: Mem, src: nat, dst: nat, n: nat): Mem {
    if n == 0 then m else CopyPage(CopyRange(m, src, dst, n - 1), src, dst, PHY_PAGE + n - 1)
  }

  /** vm_copycurr: every page between PHY_MEM and USR_MEM. */
  ghost function CopySpace(m: Mem, src: nat, dst: nat): Mem {
    CopyRange(m, src, dst, USR_PAGE - PHY_PAGE)
  }

  ghost predicate SomeIn(m: Mem, src: nat, n: nat, i: nat)
    requires Sized(m) && src < PHY_PAGE && PHY_PAGE + n <= PAGES
  {
    exists v :: PHY_PAGE <= v < PHY_PAGE + n && v / NR == i && ViewOf(m, src, v).Mapped?
  }

  /** The free pages that copying takes: one for each page, and one for each table that holds one of them. */
  ghost function CopyNeeds(m: Mem, src: nat, n: nat): nat
    requires Sized(m) && src < PHY_PAGE && PHY_PAGE + n <= PAGES
  {
    if n == 0 then 0
    else
      var v := PHY_PAGE + n - 1;
      CopyNeeds(m, src, n - 1)
      + if ViewOf(m, src, v).Mapped? then (if SomeIn(m, src, n - 1, v / NR) then 1 else 2) else 0
  }

  /** A directory as vm_alloc makes it. */
  ghost predicate Bare(m: Mem, d: nat)
    requires Sized(m) && d < PHY_PAGE
  {
    forall i :: KERNEL_DIRS <= i < NR ==> !Present(m.pages[d][i])
  }

  ghost predicate Copied(m: Mem, r: Mem, src: nat, dst: nat, n: nat)
    requires Sized(m) && src < PHY_PAGE && dst < PHY_PAGE && PHY_PAGE + n <= PAGES
  {
    && WF(r) && IsDir(r, dst) && IsDir(r, src) && Grew(m, r, dst)
    && |r.free| == |m.free| - CopyNeeds(m, src, n)
    && (forall v :: PHY_PAGE <= v < PHY_PAGE + n ==> ViewOf(r, dst, v) == ViewOf(m, src, v))
    && (forall d1: nat, v1: nat :: IsDir(m, d1) && UserPage(v1) && !(d1 == dst && v1 < PHY_PAGE + n) ==> SameView(m, r, d1, v1))
    && (forall i :: KERNEL_DIRS <= i < NR ==> (Present(r.pages[dst][i]) <==> SomeIn(m, src, n, i)))
  }

  lemma NeedsGrow(m: Mem, src: nat, n: nat)
    requires Sized(m) && src < PHY_PAGE && 0 < n && PHY_PAGE + n <= PAGES
    ensures CopyNeeds(m, src, n - 1) <= CopyNeeds(m, src, n)
  {
  }

  lemma BareUnmapped(m: Mem, d: nat, v: nat)
    requires WF(m) && IsDir(m, d) && Bare(m, d) && UserPage(v)
    ensures ViewOf(m, d, v) == Unmapped
  {
    UserIndex(v);
    ZeroAbsent();
  }

  lemma {:induction false} CopyRangeCopies(m: Mem, src: nat, dst: nat, n: nat)
    requires WF(m) && IsDir(m, src) && IsDir(m, dst) && src != dst && Bare(m, dst) && PHY_PAGE + n <= PAGES
    requires CopyNeeds(m, src, n) <= |m.free|
    ensures Copied(m, CopyRange(m, src, dst, n), src, dst, n)
  {
    hide WF, ViewOf, CopyPage, CopyNeeds, SomeIn, Copied, Bare, PageCopied;
    if n == 0 {
      CopiedNone(m, src, dst);
    } else {
      NeedsGrow(m, src, n);
      CopyRangeCopies(m, src, dst, n - 1);
      var q := CopyRange(m, src, dst, n - 1);
      CopyReady(m, q, src, dst, n);
      CopyPageCopies(q, src, dst, PHY_PAGE + n - 1);
      CopiedStep(m, q, CopyRange(m, src, dst, n), src, dst, n);
    }
  }

  lemma CopiedNone(m: Mem, src: nat, dst: nat)
    requires WF(m) && IsDir(m, src) && IsDir(m, dst) && Bare(m, dst)
    ensures Copied(m, m, src, dst, 0)
  {
  }

  lemma CopyReady(m: Mem, q: Mem, src: nat, dst: nat, n: nat)
    requires WF(m) && IsDir(m, src) && IsDir(m, dst) && src != dst && Bare(m, dst) && 0 < n && PHY_PAGE + n <= PAGES
    requires CopyNeeds(m, src, n) <= |m.free| && Copied(m, q, src, dst, n - 1)
    ensures var v := PHY_PAGE + n - 1;
            && WF(q) && IsDir(q, src) && IsDir(q, dst) && ViewOf(q, dst, v) == Unmapped && ViewOf(q, src, v) == ViewOf(m, src, v)
            && (ViewOf(q, src, v).Mapped? ==> Needs(q, dst, v) <= |q.free|)
            && CopyNeeds(m, src, n) ==
                 CopyNeeds(m, src, n - 1) + (if ViewOf(m, src, v).Mapped? then Needs(q, dst, v) else 0)
  {
    hide WF, ViewOf, SomeIn, Pte, Present;
    var v := PHY_PAGE + n - 1;
    UserIndex(v);
    BareUnmapped(m, dst, v);
    assert SameView(m, q, dst, v) && SameView(m, q, src, v);
    ViewPlain(q, dst, v);
  }

  lemma CopiedStep(m: Mem, q: Mem, r: Mem, src: nat, dst: nat, n: nat)
    requires WF(m) && IsDir(m, src) && IsDir(m, dst) && src != dst && 0 < n && PHY_PAGE + n <= PAGES
    requires WF(q) && IsDir(q, src) && IsDir(q, dst) && Copied(m, q, src, dst, n - 1)
    requires PageCopied(q, r, src, dst, PHY_PAGE + n - 1)
    requires ViewOf(q, src, PHY_PAGE + n - 1) == ViewOf(m, src, PHY_PAGE + n - 1)
    requires var v := PHY_PAGE + n - 1;
             CopyNeeds(m, src, n) == CopyNeeds(m, src, n - 1) + (if ViewOf(m, src, v).Mapped? then Needs(q, dst, v) else 0)
    ensures Copied(m, r, src, dst, n)
  {
    hide WF, ViewOf, CopyNeeds, Needs, Present, SomeIn;
    var last := PHY_PAGE + n - 1;
    forall v | PHY_PAGE <= v < PHY_PAGE + n
      ensures ViewOf(r, dst, v) == ViewOf(m, src, v)
    {
      if v < last {
        assert SameView(q, r, dst, v);
      }
    }
    forall d1: nat, v1: nat | IsDir(m, d1) && UserPage(v1) && !(d1 == dst && v1 < PHY_PAGE + n)
      ensures SameView(m, r, d1, v1)
    {
      assert SameView(m, q, d1, v1) && SameView(q, r, d1, v1);
    }
    forall i | KERNEL_DIRS <= i < NR
      ensures Present(r.pages[dst][i]) <==> SomeIn(m, src, n, i)
    {
      SomeInStep(m, src, n, i);
    }
  }

  lemma SomeInStep(m: Mem, src: nat, n: nat, i: nat)
    requires Sized(m) && src < PHY_PAGE && 0 < n && PHY_PAGE + n <= PAGES
    ensures SomeIn(m, src, n, i) <==>
              SomeIn(m, src, n - 1, i) || (ViewOf(m, src, PHY_PAGE + n - 1).Mapped? && i == (PHY_PAGE + n - 1) / NR)
  {
    hide ViewOf;
  }

  /** fork: between PHY_MEM and USR_MEM the child has the pages of its parent, with the same flags and the same content;
      nothing changes for the parent or anyone else; and only free pages were taken, just as many as that needs. */
  lemma ForkCopies(m: Mem, src: nat, dst: nat, v: nat)
    requires WF(m) && IsDir(m, src) && IsDir(m, dst) && src != dst && Bare(m, dst) && UserPage(v)
    requires CopyNeeds(m, src, USR_PAGE - PHY_PAGE) <= |m.free|
    ensures var r := CopySpace(m, src, dst);
            && WF(r) && IsDir(r, src) && IsDir(r, dst) && Grew(m, r, dst)
            && |r.free| == |m.free| - CopyNeeds(m, src, USR_PAGE - PHY_PAGE)
            && ViewOf(r, dst, v) == (if v < USR_PAGE then ViewOf(m, src, v) else Unmapped)
    ensures forall d: nat, w: nat :: IsDir(m, d) && UserPage(w) && d != dst ==> SameView(m, CopySpace(m, src, dst), d, w)
  {
    hide WF, ViewOf, CopyNeeds, CopyRange;
    CopyRangeCopies(m, src, dst, USR_PAGE - PHY_PAGE);
    var r := CopySpace(m, src, dst);
    if v >= USR_PAGE {
      BareUnmapped(m, dst, v);
      assert SameView(m, r, dst, v);
    }
  }

  /** After a fork, what either process stores is never seen by the other. */
  lemma ForkIsolates(m: Mem, src: nat, dst: nat, d: nat, v: nat, k: nat, w: nat, other: nat, x: nat)
    requires WF(m) && IsDir(m, src) && IsDir(m, dst) && src != dst && Bare(m, dst)
    requires CopyNeeds(m, src, USR_PAGE - PHY_PAGE) <= |m.free|
    requires (d == src && other == dst) || (d == dst && other == src)
    requires UserPage(v) && UserPage(x) && k < NR && Sized(CopySpace(m, src, dst)) && ViewOf(CopySpace(m, src, dst), d, v).Mapped?
    ensures var r := CopySpace(m, src, dst);
            var t := Store(r, d, v, k, w);
            ViewOf(t, other, x) == ViewOf(r, other, x) && ViewOf(t, d, v).Mapped? && ViewOf(t, d, v).content[k] == w
  {
    hide WF, ViewOf, CopyNeeds, CopyRange, Store;
    ForkCopies(m, src, dst, v);
    var r := CopySpace(m, src, dst);
    StoreIsPrivate(r, d, v, k, w);
    assert SameView(r, Store(r, d, v, k, w), other, x);
  }
}
