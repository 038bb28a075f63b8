/** Unmapping pages, writing to them, and copying and tearing down whole address spaces (kernel/src/vme.c). */
module SpaceOps {
  import opened PageTables
  import opened AddressSpaces

  // ---------------------------------------------------------------- unmapping

  /** The body of vm_unmap's loop: the page is freed, then its entry marked not present. */
  function UnmapPage(m: Mem, d: nat, v: nat): (r: Mem)
    requires Sized(m) && d < PHY_PAGE && v < PAGES
    ensures Sized(r)
  {
    var e, t := Pte(m, d, v), PageOf(m.pages[d][v / NR]);
    if Present(m.pages[d][v / NR]) && t < PHY_PAGE && Present(e) && PageOf(e) < PHY_PAGE then
      SetWord(Give(m, PageOf(e)), t, v % NR, ClearPresent(e))
    else m
  }

  /** The page f of entry j of table t is free again. */
  ghost predicate DropsFrame(m: Mem, r: Mem, d: nat, i: nat, j: nat, t: nat, f: nat) {
    && Sized(m) && Sized(r) && r.kpt == m.kpt && HasTable(m, d, i, t) && j < NR
    && Heap(f) && m.use[f] == Frame(d, i, j) && Present(m.pages[t][j]) && PageOf(m.pages[t][j]) == f
    && r.use == m.use[f := Free] && r.pages[t] == m.pages[t][j := ClearPresent(m.pages[t][j])]
    && forall p :: 0 <= p < PHY_PAGE && p != t && p != f ==> r.pages[p] == m.pages[p]
  }

  lemma DropsFrameLinked(m: Mem, r: Mem, d: nat, i: nat, j: nat, t: nat, f: nat)
    requires DropsFrame(m, r, d, i, j, t, f) && Linked(m)
    ensures Linked(r)
  {
    hide Or3, Covers, Present, PageOf, Make, OrFlags;
    assert TableOk(m, t);
    forall p | 0 <= p < PHY_PAGE
      ensures DirOk(r, p)
    {
      assert DirOk(m, p);
    }
    forall p | 0 <= p < PHY_PAGE
      ensures TableOk(r, p)
    {
      assert TableOk(m, p);
    }
    forall p | 0 <= p < PHY_PAGE
      ensures FrameOk(r, p)
    {
      assert FrameOk(m, p);
    }
  }

  lemma DropsFrameView(m: Mem, r: Mem, d: nat, i: nat, j: nat, t: nat, f: nat, d1: nat, v: nat)
    requires DropsFrame(m, r, d, i, j, t, f) && WF(m) && WF(r) && IsDir(m, d1) && UserPage(v)
    ensures if d1 == d && v / NR == i && v % NR == j then IsDir(r, d) && ViewOf(r, d, v) == Unmapped else SameView(m, r, d1, v)
  {
    hide WF, Make, OrFlags, Or3, Covers, And3;
    ViewPlain(m, d1, v);
    ViewPlain(r, d1, v);
    UserIndex(v);
  }

  /** Page v of directory d is no longer there; all else is. */
  ghost predicate PageGone(m: Mem, r: Mem, d: nat, v: nat)
    requires Sized(m) && d < PHY_PAGE && v < PAGES
  {
    && WF(r) && IsDir(r, d) && ViewOf(r, d, v) == Unmapped
    && |r.free| == |m.free| + (if ViewOf(m, d, v).Mapped? then 1 else 0)
    && forall d1: nat, v1: nat :: IsDir(m, d1) && UserPage(v1) && !(d1 == d && v1 == v) ==> SameView(m, r, d1, v1)
  }

  lemma UnmapDrops(m: Mem, d: nat, v: nat)
    requires WF(m) && IsDir(m, d) && UserPage(v) && Present(Pte(m, d, v)) && Present(m.pages[d][v / NR])
    ensures var r := UnmapPage(m, d, v);
            && WF(r) && |r.free| == |m.free| + 1
            && DropsFrame(m, r, d, v / NR, v % NR, PageOf(m.pages[d][v / NR]), PageOf(Pte(m, d, v)))
  {
    hide ViewOf, Make, OrFlags, Or3, Covers, And3, Linked, ClearPresent, PageOf;
    ViewPlain(m, d, v);
    UserIndex(v);
    var i, j, t, f := v / NR, v % NR, PageOf(m.pages[d][v / NR]), PageOf(Pte(m, d, v));
    var r := UnmapPage(m, d, v);
    GiveFreeOk(m, f);
    DropsFrameLinked(m, r, d, i, j, t, f);
  }

  lemma UnmapPageUnmaps(m: Mem, d: nat, v: nat)
    requires WF(m) && IsDir(m, d) && UserPage(v)
    ensures PageGone(m, UnmapPage(m, d, v), d, v)
    ensures forall p :: 0 <= p < PHY_PAGE && m.use[p] == Kernel ==>
              UnmapPage(m, d, v).use[p] == Kernel && UnmapPage(m, d, v).pages[p] == m.pages[p]
  {
    hide WF, ViewOf, Make, OrFlags, Or3, Covers, And3, ClearPresent;
    ViewPlain(m, d, v);
    UserIndex(v);
    var i, j, t, f := v / NR, v % NR, PageOf(m.pages[d][v / NR]), PageOf(Pte(m, d, v));
    var r := UnmapPage(m, d, v);
    if Present(Pte(m, d, v)) && Present(m.pages[d][i]) {
      UnmapDrops(m, d, v);
      forall d1: nat, v1: nat | IsDir(m, d1) && UserPage(v1)
        ensures if d1 == d && v1 == v then IsDir(r, d) && ViewOf(r, d, v) == Unmapped else SameView(m, r, d1, v1)
      {
        DropsFrameView(m, r, d, i, j, t, f, d1, v1);
        if v1 / NR == i && v1 % NR == j {
          SameIndex(v, v1);
        }
      }
      assert IsDir(r, d) && ViewOf(r, d, v) == Unmapped;
    } else {
      assert r == m;
      NotPresent(m, d, v);
    }
  }

  lemma NotPresent(m: Mem, d: nat, v: nat)
    requires WF(m) && IsDir(m, d) && UserPage(v) && (!Present(Pte(m, d, v)) || !Present(m.pages[d][v / NR]))
    ensures ViewOf(m, d, v) == Unmapped
  {
    ZeroAbsent();
  }

  // ---------------------------------------------------------------- writing

  /** A store by a process, to word k of its page v. */
  function Store(m: Mem, d: nat, v: nat, k: nat, w: nat): (r: Mem)
    requires Sized(m) && d < PHY_PAGE && v < PAGES && k < NR
    ensures Sized(r)
  {
    if PageOf(Pte(m, d, v)) < PHY_PAGE then SetWord(m, PageOf(Pte(m, d, v)), k, w) else m
  }

  /** A page that only one place maps has changed. */
  ghost predicate ChangesFrame(m: Mem, r: Mem, d: nat, i: nat, j: nat, f: nat) {
    && Sized(m) && Sized(r) && r.kpt == m.kpt && f < PHY_PAGE && m.use[f] == Frame(d, i, j) && r.use == m.use
    && r.free == m.free && r.head == m.head
    && forall p :: 0 <= p < PHY_PAGE && p != f ==> r.pages[p] == m.pages[p]
  }

  lemma ChangesFrameFree(m: Mem, r: Mem, d: nat, i: nat, j: nat, f: nat)
    requires ChangesFrame(m, r, d, i, j, f) && FreeOk(m)
    ensures FreeOk(r)
  {
  }

  lemma ChangesFrameKeeps(m: Mem, r: Mem, d: nat, i: nat, j: nat, f: nat)
    requires ChangesFrame(m, r, d, i, j, f) && WF(m)
    ensures WF(r)
  {
    hide Or3, Covers, Present, PageOf, Make, OrFlags, FreeOk;
    ChangesFrameFree(m, r, d, i, j, f);
    forall p | 0 <= p < PHY_PAGE
      ensures DirOk(r, p)
    {
      assert DirOk(m, p);
    }
    forall p | 0 <= p < PHY_PAGE
      ensures TableOk(r, p)
    {
      assert TableOk(m, p);
    }
    forall p | 0 <= p < PHY_PAGE
      ensures FrameOk(r, p)
    {
      assert FrameOk(m, p);
    }
  }

  lemma FramePlace(m: Mem, d: nat, v: nat, f: nat)
    requires WF(m) && IsDir(m, d) && UserPage(v) && f < PHY_PAGE && m.use[f] == Frame(d, v / NR, v % NR)
    ensures PageOf(Pte(m, d, v)) == f
  {
    assert FrameOk(m, f);
  }

  lemma ChangesFrameView(m: Mem, r: Mem, d: nat, i: nat, j: nat, f: nat, d1: nat, v: nat)
    requires ChangesFrame(m, r, d, i, j, f) && WF(m) && WF(r) && IsDir(m, d1) && UserPage(v)
    ensures IsDir(r, d1)
    ensures !(d1 == d && v / NR == i && v % NR == j) ==> SameView(m, r, d1, v)
    ensures d1 == d && v / NR == i && v % NR == j && Present(Pte(m, d, v)) ==>
              ViewOf(m, d, v).Mapped? && ViewOf(r, d, v) == ViewOf(m, d, v).(content := r.pages[f])
  {
    hide WF, Make, OrFlags, Or3, Covers, And3;
    ViewPlain(m, d1, v);
    ViewPlain(r, d1, v);
    UserIndex(v);
    if d1 == d && v / NR == i && v % NR == j {
      FramePlace(m, d, v, f);
    }
  }

  /** A store changes one word of one page of the process that makes it; no other process, and no other page, sees it. */
  lemma StoreIsPrivate(m: Mem, d: nat, v: nat, k: nat, w: nat)
    requires WF(m) && IsDir(m, d) && UserPage(v) && ViewOf(m, d, v).Mapped? && k < NR
    ensures var r := Store(m, d, v, k, w);
            WF(r) && IsDir(r, d) && ViewOf(r, d, v) == ViewOf(m, d, v).(content := ViewOf(m, d, v).content[k := w])
    ensures forall d1: nat, v1: nat :: IsDir(m, d1) && UserPage(v1) && !(d1 == d && v1 == v) ==>
              SameView(m, Store(m, d, v, k, w), d1, v1)
  {
    hide WF, ViewOf, Make, OrFlags, Or3, Covers, And3;
    ViewPlain(m, d, v);
    var r, f := Store(m, d, v, k, w), PageOf(Pte(m, d, v));
    ChangesFrameKeeps(m, r, d, v / NR, v % NR, f);
    ChangesFrameView(m, r, d, v / NR, v % NR, f, d, v);
    forall d1: nat, v1: nat | IsDir(m, d1) && UserPage(v1) && !(d1 == d && v1 == v)
      ensures SameView(m, r, d1, v1)
    {
      ChangesFrameView(m, r, d, v / NR, v % NR, f, d1, v1);
      if v1 / NR == v / NR && v1 % NR == v % NR {
        SameIndex(v, v1);
      }
    }
  }

  /** No two places of any address spaces share a page. */
  lemma FramesApart(m: Mem, d: nat, v: nat, d1: nat, v1: nat)
    requires WF(m) && IsDir(m, d) && IsDir(m, d1) && UserPage(v) && UserPage(v1)
    requires Present(Pte(m, d, v)) && Present(Pte(m, d1, v1)) && !(d1 == d && v1 == v)
    ensures PageOf(Pte(m, d, v)) != PageOf(Pte(m, d1, v1))
  {
    ViewPlain(m, d, v);
    ViewPlain(m, d1, v1);
    if v / NR == v1 / NR && v % NR == v1 % NR {
      SameIndex(v, v1);
    }
  }
}
