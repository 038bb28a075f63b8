/** What a process sees through its page directory, and what mapping, unmapping, copying and tearing down an address
    space do to it and to all others (kernel/src/vme.c). */
module AddressSpaces {
  import opened PageTables

  const PAGES := 0x10_0000   // virtual pages

  /** A virtual page as the processor sees it: the flags that both levels allow, and what is in it. */
  datatype View = Unmapped | Mapped(access: nat, content: Page)

  /** The table entry of virtual page v, 0 where there is no table. */
  function Pte(m: Mem, d: nat, v: nat): nat
    requires Sized(m) && d < PHY_PAGE && v < PAGES
  {
    var e := m.pages[d][v / NR];
    if Present(e) && PageOf(e) < PHY_PAGE then m.pages[PageOf(e)][v % NR] else 0
  }

  function ViewOf(m: Mem, d: nat, v: nat): (r: View)
    requires Sized(m) && d < PHY_PAGE && v < PAGES
  {
    var e := Pte(m, d, v);
    if Present(e) && PageOf(e) < PHY_PAGE then Mapped(And3(Flags(m.pages[d][v / NR]), Flags(e)), m.pages[PageOf(e)])
    else Unmapped
  }

  predicate UserPage(v: nat) {
    PHY_PAGE <= v < PAGES
  }

  lemma UserIndex(v: nat)
    requires UserPage(v)
    ensures KERNEL_DIRS <= v / NR < NR && v % NR < NR && v == v / NR * NR + v % NR
  {
  }

  lemma SameIndex(v: nat, w: nat)
    requires v / NR == w / NR && v % NR == w % NR
    ensures v == w
  {
  }

  /** A page is mapped exactly where the tables say so, and then in a frame of its own, with the flags of its table
      entry: the directory's take nothing away. */
  lemma ViewPlain(m: Mem, d: nat, v: nat)
    requires WF(m) && IsDir(m, d) && UserPage(v)
    ensures ViewOf(m, d, v).Mapped? <==> Present(Pte(m, d, v))
    ensures Present(Pte(m, d, v)) ==>
              var f := PageOf(Pte(m, d, v));
              && Heap(f) && m.use[f] == Frame(d, v / NR, v % NR)
              && ViewOf(m, d, v) == Mapped(Flags(Pte(m, d, v)), m.pages[f])
    ensures Present(m.pages[d][v / NR]) ==> HasTable(m, d, v / NR, PageOf(m.pages[d][v / NR]))
  {
    UserIndex(v);
    ZeroAbsent();
    assert DirOk(m, d);
    var e := m.pages[d][v / NR];
    if Present(e) {
      assert TableOk(m, PageOf(e));
      OrCovers(Flags(e), Flags(Pte(m, d, v)), 0);
    }
  }

  /** What both memories show of virtual page v of directory d is the same. */
  ghost predicate SameView(m: Mem, r: Mem, d: nat, v: nat) {
    WF(m) && WF(r) && IsDir(m, d) && IsDir(r, d) && v < PAGES && ViewOf(m, d, v) == ViewOf(r, d, v)
  }

  // ---------------------------------------------------------------- one page at a time

  lemma AddsTableView(m: Mem, r: Mem, d: nat, i: nat, t: nat, prot: nat, d1: nat, v: nat)
    requires AddsTable(m, r, d, i, t, prot) && WF(m) && WF(r) && IsDir(m, d1) && UserPage(v)
    ensures SameView(m, r, d1, v) && Pte(r, d1, v) == Pte(m, d1, v)
  {
    hide WF, OrFlags, Or3, Covers, And3;
    ViewPlain(m, d1, v);
    ViewPlain(r, d1, v);
    UserIndex(v);
  }

  lemma WidensView(m: Mem, r: Mem, d: nat, i: nat, prot: nat, d1: nat, v: nat)
    requires Widens(m, r, d, i, prot) && WF(m) && WF(r) && IsDir(m, d1) && UserPage(v)
    ensures SameView(m, r, d1, v) && Pte(r, d1, v) == Pte(m, d1, v)
  {
    hide WF, Make, Or3, Covers, And3;
    ViewPlain(m, d1, v);
    ViewPlain(r, d1, v);
    UserIndex(v);
  }

  lemma AddsFrameView(m: Mem, r: Mem, d: nat, i: nat, j: nat, t: nat, f: nat, prot: nat, d1: nat, v: nat)
    requires AddsFrame(m, r, d, i, j, t, f, prot) && WF(m) && WF(r) && IsDir(m, d1) && UserPage(v)
    ensures !(d1 == d && v / NR == i && v % NR == j) ==> SameView(m, r, d1, v)
    ensures d1 == d && v / NR == i && v % NR == j ==> ViewOf(m, d, v) == Unmapped && ViewOf(r, d, v) == Mapped(prot, Zeros())
  {
    hide WF, OrFlags, Or3, Covers, And3;
    ViewPlain(m, d1, v);
    ViewPlain(r, d1, v);
    UserIndex(v);
    MakeCovered(f, 0, prot);
  }

  lemma WidensPteView(m: Mem, r: Mem, d: nat, i: nat, j: nat, t: nat, prot: nat, d1: nat, v: nat)
    requires WidensPte(m, r, d, i, j, t, prot) && WF(m) && WF(r) && IsDir(m, d1) && UserPage(v)
    ensures !(d1 == d && v / NR == i && v % NR == j) ==> SameView(m, r, d1, v)
    ensures d1 == d && v / NR == i && v % NR == j ==>
              && ViewOf(m, d, v).Mapped? && ViewOf(m, d, v).access < 8
              && ViewOf(r, d, v) == Mapped(Or3(ViewOf(m, d, v).access, prot), ViewOf(m, d, v).content)
  {
    hide WF, Make, Or3, Covers, And3;
    ViewPlain(m, d1, v);
    ViewPlain(r, d1, v);
    UserIndex(v);
  }

  // ---------------------------------------------------------------- vm_map

  /** What mapping a page with these flags makes of it: they are added to those it had; a new page is zero. */
  ghost predicate MapsTo(a: View, b: View, prot: nat)
    requires prot < 8
  {
    match a
    case Unmapped => b == Mapped(prot, Zeros())
    case Mapped(f, c) => f < 8 && b == Mapped(Or3(f, prot), c)
  }

  /** How many free pages mapping v takes: one for a table if there is none, one for the page if there is none. */
  function Needs(m: Mem, d: nat, v: nat): (n: nat)
    requires Sized(m) && d < PHY_PAGE && v < PAGES
  {
    (if Present(m.pages[d][v / NR]) then 0 else 1) + (if Present(Pte(m, d, v)) then 0 else 1)
  }

  /** The table that vm_walkpte found or made for v, for a mapping with these flags. */
  ghost predicate Walked(m: Mem, r: Mem, d: nat, v: nat, prot: nat)
    requires Sized(m) && d < PHY_PAGE && v < PAGES
  {
    && WF(r) && prot < 8 && IsDir(r, d) && HasTable(r, d, v / NR, PageOf(r.pages[d][v / NR]))
    && Covers(Flags(r.pages[d][v / NR]), prot) && Pte(r, d, v) == Pte(m, d, v)
    && |r.free| + (if Present(m.pages[d][v / NR]) then 0 else 1) == |m.free|
  }

  lemma WalkToMap(m: Mem, d: nat, v: nat, prot: nat)
    requires WF(m) && IsDir(m, d) && UserPage(v) && prot < 8 && prot % 2 == 1 && Needs(m, d, v) <= |m.free|
    ensures !Present(m.pages[d][v / NR]) ==> m.free != [] && m.free[0] < PHY_PAGE
    ensures Walked(m, WalkPte(m, d, v / NR, prot), d, v, prot)
    ensures forall d1: nat, v1: nat :: IsDir(m, d1) && UserPage(v1) ==> SameView(m, WalkPte(m, d, v / NR, prot), d1, v1)
  {
    hide WF, ViewOf, Or3, Covers, OrFlags, Make, Pte, And3;
    UserIndex(v);
    ViewPlain(m, d, v);
    ViewPlain2(m, d, v);
    var i := v / NR;
    if Present(m.pages[d][i]) {
      WidenKeeps(m, d, i, prot);
      var r := WalkPte(m, d, i, prot);
      WidensView(m, r, d, i, prot, d, v);
      forall d1: nat, v1: nat | IsDir(m, d1) && UserPage(v1)
        ensures SameView(m, r, d1, v1)
      {
        WidensView(m, r, d, i, prot, d1, v1);
      }
    } else {
      NewTableKeeps(m, d, i, prot);
      var r := WalkPte(m, d, i, prot);
      AddsTableView(m, r, d, i, m.free[0], prot, d, v);
      forall d1: nat, v1: nat | IsDir(m, d1) && UserPage(v1)
        ensures SameView(m, r, d1, v1)
      {
        AddsTableView(m, r, d, i, m.free[0], prot, d1, v1);
      }
    }
  }

  lemma ViewPlain2(m: Mem, d: nat, v: nat)
    requires WF(m) && IsDir(m, d) && UserPage(v)
    ensures Needs(m, d, v) <= |m.free| && !Present(m.pages[d][v / NR]) ==> m.free != []
    ensures m.free != [] ==> Heap(m.free[0]) && m.use[m.free[0]] == Free && m.free[0] != d
  {
  }

  function MapPage(m: Mem, d: nat, v: nat, prot: nat): (r: Mem)
    requires WF(m) && IsDir(m, d) && UserPage(v) && prot < 8 && prot % 2 == 1 && Needs(m, d, v) <= |m.free|
    ensures Sized(r)
  {
    WalkToMap(m, d, v, prot);
    var w := WalkPte(m, d, v / NR, prot);
    WalkedNeeds(m, w, d, v, prot);
    SetPte(w, d, v / NR, v % NR, prot)
  }

  lemma WalkedNeeds(m: Mem, w: Mem, d: nat, v: nat, prot: nat)
    requires Sized(m) && d < PHY_PAGE && v < PAGES && UserPage(v) && Walked(m, w, d, v, prot) && Needs(m, d, v) <= |m.free|
    ensures v / NR < NR && PageOf(w.pages[d][v / NR]) < PHY_PAGE
    ensures var t := PageOf(w.pages[d][v / NR]);
            w.pages[t][v % NR] == Pte(m, d, v) && (!Present(w.pages[t][v % NR]) ==> w.free != [] && w.free[0] < PHY_PAGE)
  {
  }

  /** Mapping a page: it is there with the flags asked for besides those it had, empty if it was not there before;
      nothing else in any address space changes; and it takes just the free pages it needs. */
  lemma MapPageMaps(m: Mem, d: nat, v: nat, prot: nat)
    requires WF(m) && IsDir(m, d) && UserPage(v) && prot < 8 && prot % 2 == 1 && Needs(m, d, v) <= |m.free|
    ensures var r := MapPage(m, d, v, prot);
            WF(r) && IsDir(r, d) && |r.free| == |m.free| - Needs(m, d, v) && MapsTo(ViewOf(m, d, v), ViewOf(r, d, v), prot)
    ensures forall d1: nat, v1: nat :: IsDir(m, d1) && UserPage(v1) && !(d1 == d && v1 == v) ==> SameView(m, MapPage(m, d, v, prot), d1, v1)
  {
    hide WF, ViewOf, Or3, Covers, OrFlags, Make, And3, WalkPte, Pte;
    WalkToMap(m, d, v, prot);
    var w := WalkPte(m, d, v / NR, prot);
    WalkedNeeds(m, w, d, v, prot);
    UserIndex(v);
    var i, j, t := v / NR, v % NR, PageOf(w.pages[d][v / NR]);
    var r := MapPage(m, d, v, prot);
    assert SameView(m, w, d, v);
    SetPteKeeps(w, d, i, j, prot);
    forall d1: nat, v1: nat | IsDir(m, d1) && UserPage(v1)
      ensures if d1 == d && v1 == v then MapsTo(ViewOf(w, d, v), ViewOf(r, d, v), prot) else SameView(m, r, d1, v1)
    {
      assert SameView(m, w, d1, v1);
      SetPteView(w, d, i, j, prot, d1, v1);
      if v1 / NR == i && v1 % NR == j {
        SameIndex(v, v1);
      }
    }
    assert MapsTo(ViewOf(w, d, v), ViewOf(r, d, v), prot);
  }

  ghost predicate CanSet(w: Mem, d: nat, i: nat, j: nat, prot: nat) {
    && WF(w) && IsDir(w, d) && prot < 8 && prot % 2 == 1 && i < NR && j < NR && HasTable(w, d, i, PageOf(w.pages[d][i]))
    && Covers(Flags(w.pages[d][i]), prot)
    && (!Present(w.pages[PageOf(w.pages[d][i])][j]) ==> w.free != [] && w.free[0] < PHY_PAGE)
  }

  lemma SetPteKeeps(w: Mem, d: nat, i: nat, j: nat, prot: nat)
    requires CanSet(w, d, i, j, prot)
    ensures var r := SetPte(w, d, i, j, prot); WF(r) && IsDir(r, d)
    ensures |SetPte(w, d, i, j, prot).free| == |w.free| - (if Present(w.pages[PageOf(w.pages[d][i])][j]) then 0 else 1)
    ensures forall d1: nat :: IsDir(w, d1) ==> IsDir(SetPte(w, d, i, j, prot), d1)
  {
    hide Or3, Covers, OrFlags, Make, Linked, PageOf, Present;
    var r := SetPte(w, d, i, j, prot);
    var t := PageOf(w.pages[d][i]);
    if Present(w.pages[t][j]) {
      WidensPteLinked(w, r, d, i, j, t, prot);
    } else {
      TakeFreeOk(w, Frame(d, i, j));
      AddsFrameLinked(w, r, d, i, j, t, w.free[0], prot);
    }
  }

  lemma SetPteView(w: Mem, d: nat, i: nat, j: nat, prot: nat, d1: nat, v: nat)
    requires CanSet(w, d, i, j, prot) && IsDir(w, d1) && UserPage(v)
    ensures var r := SetPte(w, d, i, j, prot);
            if d1 == d && v / NR == i && v % NR == j then IsDir(r, d) && MapsTo(ViewOf(w, d, v), ViewOf(r, d, v), prot) else SameView(w, r, d1, v)
  {
    hide Or3, Covers, OrFlags, Make, ViewOf;
    var r := SetPte(w, d, i, j, prot);
    var t := PageOf(w.pages[d][i]);
    SetPteKeeps(w, d, i, j, prot);
    if Present(w.pages[t][j]) {
      WidensPteView(w, r, d, i, j, t, prot, d1, v);
    } else {
      AddsFrameView(w, r, d, i, j, t, w.free[0], prot, d1, v);
    }
  }

  // ---------------------------------------------------------------- what a change leaves alone

  predicate OwnedBy(u: Use, d: nat) {
    (u.Table? && u.dir == d) || (u.Frame? && u.dir == d)
  }

  /** Only free pages changed hands, to directory d, and what the kernel holds is as it was. */
  ghost predicate Grew(m: Mem, r: Mem, d: nat)
    requires Sized(m) && Sized(r)
  {
    && (forall p :: 0 <= p < PHY_PAGE && m.use[p] != Free ==> r.use[p] == m.use[p])
    && (forall p :: 0 <= p < PHY_PAGE && m.use[p] == Free ==> r.use[p] == Free || OwnedBy(r.use[p], d))
    && (forall p :: 0 <= p < PHY_PAGE && m.use[p] == Kernel ==> r.pages[p] == m.pages[p])
    && m.kpt == r.kpt
  }

  lemma WalkGrows(m: Mem, d: nat, v: nat, prot: nat)
    requires WF(m) && IsDir(m, d) && UserPage(v) && prot < 8 && prot % 2 == 1 && Needs(m, d, v) <= |m.free|
    requires !Present(m.pages[d][v / NR]) ==> m.free != [] && m.free[0] < PHY_PAGE
    ensures Grew(m, WalkPte(m, d, v / NR, prot), d)
    ensures forall i :: 0 <= i < NR ==>
              (Present(WalkPte(m, d, v / NR, prot).pages[d][i]) <==> Present(m.pages[d][i]) || i == v / NR)
  {
    hide ViewOf, Or3, Covers, Pte, And3, Present;
    ViewPlain2(m, d, v);
    UserIndex(v);
  }

  lemma SetGrows(w: Mem, d: nat, i: nat, j: nat, prot: nat)
    requires CanSet(w, d, i, j, prot)
    ensures Grew(w, SetPte(w, d, i, j, prot), d) && SetPte(w, d, i, j, prot).pages[d] == w.pages[d]
  {
    hide ViewOf, Or3, Covers, Pte, And3, Present, Linked, PageOf;
    ViewPlain2(w, d, PHY_PAGE);
  }

  lemma MapPageGrows(m: Mem, d: nat, v: nat, prot: nat)
    requires WF(m) && IsDir(m, d) && UserPage(v) && prot < 8 && prot % 2 == 1 && Needs(m, d, v) <= |m.free|
    ensures Grew(m, MapPage(m, d, v, prot), d)
    ensures forall i :: 0 <= i < NR ==>
              (Present(MapPage(m, d, v, prot).pages[d][i]) <==> Present(m.pages[d][i]) || i == v / NR)
  {
    hide WF, ViewOf, Or3, Covers, Pte, And3, Present, WalkPte, SetPte;
    WalkToMap(m, d, v, prot);
    var w := WalkPte(m, d, v / NR, prot);
    WalkedNeeds(m, w, d, v, prot);
    UserIndex(v);
    WalkGrows(m, d, v, prot);
    SetGrows(w, d, v / NR, v % NR, prot);
  }

  // ---------------------------------------------------------------- vm_map of a range

  function RangeNeeds(m: Mem, d: nat, v: nat, n: nat): nat
    requires Sized(m) && d < PHY_PAGE && v + n <= PAGES
  {
    if n == 0 then 0
    else
      var last := v + n - 1;
      RangeNeeds(m, d, v, n - 1)
      + (if Present(m.pages[d][last / NR]) || (n > 1 && (last - 1) / NR == last / NR) then 0 else 1)
      + (if Present(Pte(m, d, last)) then 0 else 1)
  }

  /** Pages v to v + n of directory d are mapped, and nothing else has changed. */
  ghost predicate RangeMapped(m: Mem, r: Mem, d: nat, v: nat, n: nat, prot: nat)
    requires Sized(m) && d < PHY_PAGE && PHY_PAGE <= v && v + n <= PAGES && prot < 8
  {
    && WF(r) && IsDir(r, d) && |r.free| == |m.free| - RangeNeeds(m, d, v, n) && Grew(m, r, d)
    && (forall d1: nat, v1: nat :: IsDir(m, d1) && UserPage(v1) && !(d1 == d && v <= v1 < v + n) ==> SameView(m, r, d1, v1))
    && (forall v1 :: v <= v1 < v + n ==> MapsTo(ViewOf(m, d, v1), ViewOf(r, d, v1), prot))
    && (forall i :: 0 <= i < NR ==>
          (Present(r.pages[d][i]) <==> Present(m.pages[d][i]) || (n > 0 && v / NR <= i <= (v + n - 1) / NR)))
  }

  ghost predicate CanMap(m: Mem, d: nat, v: nat, prot: nat) {
    WF(m) && IsDir(m, d) && UserPage(v) && prot < 8 && prot % 2 == 1 && Needs(m, d, v) <= |m.free|
  }

  /** One turn of vm_map's loop; the kernel stops where there is no page left. */
  ghost function MapStep(m: Mem, d: nat, v: nat, prot: nat): Mem {
    if CanMap(m, d, v, prot) then MapPage(m, d, v, prot) else m
  }

  /** vm_map of n pages from v on. */
  ghost function MapRange(m: Mem, d: nat, v: nat, n: nat, prot: nat): Mem {
    if n == 0 then m else MapStep(MapRange(m, d, v, n - 1, prot), d, v + n - 1, prot)
  }

  /** With enough free pages vm_map maps the whole range, takes just what that needs, and changes nothing else. */
  lemma {:induction false} MapRangeMaps(m: Mem, d: nat, v: nat, n: nat, prot: nat)
    requires WF(m) && IsDir(m, d) && PHY_PAGE <= v && v + n <= PAGES && prot < 8 && prot % 2 == 1
    requires RangeNeeds(m, d, v, n) <= |m.free|
    ensures RangeMapped(m, MapRange(m, d, v, n, prot), d, v, n, prot)
    ensures n > 0 ==> CanMap(MapRange(m, d, v, n - 1, prot), d, v + n - 1, prot)
  {
    hide WF, RangeMapped, MapStep, CanMap, RangeNeeds;
    if n == 0 {
      RangeNone(m, d, v, prot);
    } else {
      NeedsMore(m, d, v, n);
      MapRangeMaps(m, d, v, n - 1, prot);
      RangeStep(m, MapRange(m, d, v, n - 1, prot), d, v, n, prot);
    }
  }

  lemma NeedsMore(m: Mem, d: nat, v: nat, n: nat)
    requires Sized(m) && d < PHY_PAGE && 0 < n && v + n <= PAGES
    ensures RangeNeeds(m, d, v, n - 1) <= RangeNeeds(m, d, v, n)
  {
  }

  lemma RangeNone(m: Mem, d: nat, v: nat, prot: nat)
    requires WF(m) && IsDir(m, d) && PHY_PAGE <= v <= PAGES && prot < 8
    ensures RangeMapped(m, m, d, v, 0, prot)
  {
  }

  lemma RangeStep(m: Mem, q: Mem, d: nat, v: nat, n: nat, prot: nat)
    requires WF(m) && IsDir(m, d) && PHY_PAGE <= v && 0 < n && v + n <= PAGES && prot < 8 && prot % 2 == 1
    requires RangeNeeds(m, d, v, n) <= |m.free| && RangeMapped(m, q, d, v, n - 1, prot)
    ensures CanMap(q, d, v + n - 1, prot) && RangeMapped(m, MapStep(q, d, v + n - 1, prot), d, v, n, prot)
  {
    hide WF, ViewOf, Or3, Pte, And3, Present, MapPage, RangeMapped, Needs, RangeNeeds, Grew, MapsTo;
    var last := v + n - 1;
    NeedsLast(m, q, d, v, n, prot);
    MapPageMaps(q, d, last, prot);
    MapPageGrows(q, d, last, prot);
    RangeViews(m, q, MapPage(q, d, last, prot), d, v, n, prot);
  }

  lemma NeedsLast(m: Mem, q: Mem, d: nat, v: nat, n: nat, prot: nat)
    requires WF(m) && IsDir(m, d) && PHY_PAGE <= v && 0 < n && v + n <= PAGES && prot < 8
    requires RangeMapped(m, q, d, v, n - 1, prot)
    ensures WF(q) && IsDir(q, d) && |q.free| == |m.free| - RangeNeeds(m, d, v, n - 1)
    ensures RangeNeeds(m, d, v, n) == RangeNeeds(m, d, v, n - 1) + Needs(q, d, v + n - 1)
  {
    hide WF, ViewOf, Or3, Pte, And3, Present;
    var last := v + n - 1;
    assert SameView(m, q, d, last);
    ViewPlain(m, d, last);
    ViewPlain(q, d, last);
    UserIndex(last);
  }

  lemma RangeViews(m: Mem, q: Mem, r: Mem, d: nat, v: nat, n: nat, prot: nat)
    requires WF(m) && IsDir(m, d) && PHY_PAGE <= v && 0 < n && v + n <= PAGES && prot < 8
    requires RangeMapped(m, q, d, v, n - 1, prot) && WF(r) && IsDir(r, d) && Grew(q, r, d)
    requires |r.free| == |m.free| - RangeNeeds(m, d, v, n)
    requires MapsTo(ViewOf(q, d, v + n - 1), ViewOf(r, d, v + n - 1), prot)
    requires forall d1: nat, v1: nat :: IsDir(q, d1) && UserPage(v1) && !(d1 == d && v1 == v + n - 1) ==> SameView(q, r, d1, v1)
    requires forall i :: 0 <= i < NR ==> (Present(r.pages[d][i]) <==> Present(q.pages[d][i]) || i == (v + n - 1) / NR)
    ensures RangeMapped(m, r, d, v, n, prot)
  {
    hide WF, ViewOf, Or3, Pte, And3, Present, MapPage, RangeNeeds;
    var last := v + n - 1;
    assert SameView(m, q, d, last);
    forall d1: nat, v1: nat | IsDir(m, d1) && UserPage(v1) && !(d1 == d && v <= v1 < v + n)
      ensures SameView(m, r, d1, v1)
    {
      assert SameView(m, q, d1, v1) && SameView(q, r, d1, v1);
    }
    forall v1 | v <= v1 < v + n
      ensures MapsTo(ViewOf(m, d, v1), ViewOf(r, d, v1), prot)
    {
      if v1 < last {
        assert SameView(q, r, d, v1);
      }
    }
    assert Grew(m, r, d);
    if n > 1 {
      assert last / NR == (last - 1) / NR || last / NR == (last - 1) / NR + 1;
    }
  }
}
