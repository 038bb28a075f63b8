/** Making and tearing down address spaces (vm_alloc and vm_teardown), and what is conserved over their whole life. */
module SpaceTeardown {
  import opened PageTables
  import opened AddressSpaces
  import opened SpaceOps

  // ---------------------------------------------------------------- vm_alloc

  /** The first entries are the kernel's tables, the others are empty. */
  function KernelDir(kpt: nat): (p: seq<nat>)
    ensures |p| == NR
    ensures forall i :: 0 <= i < KERNEL_DIRS ==> p[i] == Make(kpt + i, 3)
    ensures forall i :: KERNEL_DIRS <= i < NR ==> p[i] == 0
  {
    var own := seq<nat>(KERNEL_DIRS, (i: nat) => Make(kpt + i, 3));
    own + Zeros()[KERNEL_DIRS..]
  }

  function AllocDir(m: Mem): (r: Mem)
    requires Sized(m) && m.free != [] && m.free[0] < PHY_PAGE
    ensures Sized(r)
  {
    var r := Take(m, Dir);
    r.(pages := r.pages[m.free[0] := KernelDir(m.kpt)])
  }

  /** A free page d becomes a directory. */
  ghost predicate AddsDir(m: Mem, r: Mem, d: nat) {
    && Sized(m) && Sized(r) && r.kpt == m.kpt && Heap(d) && m.use[d] == Free
    && r.use == m.use[d := Dir] && r.pages[d] == KernelDir(m.kpt)
    && forall p :: 0 <= p < PHY_PAGE && p != d ==> r.pages[p] == m.pages[p]
  }

  lemma AddsDirLinked(m: Mem, r: Mem, d: nat)
    requires AddsDir(m, r, d) && Linked(m)
    ensures Linked(r)
  {
    hide Or3, Covers, Present, PageOf, Make, OrFlags, KernelDir;
    ZeroAbsent();
    forall p | 0 <= p < PHY_PAGE
      ensures DirOk(r, p) && TableOk(r, p) && FrameOk(r, p)
    {
      assert DirOk(m, p) && TableOk(m, p) && FrameOk(m, p);
    }
  }

  lemma AddsDirView(m: Mem, r: Mem, d: nat, d1: nat, v: nat)
    requires AddsDir(m, r, d) && WF(m) && WF(r) && IsDir(m, d1) && UserPage(v)
    ensures SameView(m, r, d1, v)
  {
    hide WF, Make, OrFlags, Or3, Covers, And3;
    ViewPlain(m, d1, v);
    ViewPlain(r, d1, v);
    UserIndex(v);
  }

  /** vm_alloc: a new address space with nothing mapped above PHY_MEM, and no other changed. */
  lemma AllocDirMakes(m: Mem)
    requires WF(m) && m.free != []
    ensures Heap(m.free[0]) && m.use[m.free[0]] == Free
    ensures var r := AllocDir(m);
            && WF(r) && IsDir(r, m.free[0]) && r.use == m.use[m.free[0] := Dir] && r.free == m.free[1..]
            && (forall v :: UserPage(v) ==> ViewOf(r, m.free[0], v) == Unmapped)
            && (forall i :: KERNEL_DIRS <= i < NR ==> !Present(r.pages[m.free[0]][i]))
    ensures forall d1: nat, v1: nat :: IsDir(m, d1) && UserPage(v1) ==> SameView(m, AllocDir(m), d1, v1)
  {
    hide ViewOf, Make, OrFlags, Or3, Covers, And3, Linked, KernelDir, Present;
    ZeroAbsent();
    var r, d := AllocDir(m), m.free[0];
    TakeFreeOk(m, Dir);
    AddsDirLinked(m, r, d);
    forall d1: nat, v1: nat | IsDir(m, d1) && UserPage(v1)
      ensures SameView(m, r, d1, v1)
    {
      AddsDirView(m, r, d, d1, v1);
    }
    forall v | UserPage(v)
      ensures ViewOf(r, d, v) == Unmapped
    {
      UserIndex(v);
      NotPresent(r, d, v);
    }
  }

  // ---------------------------------------------------------------- vm_teardown

  /** What of directory d is free once entries up to (i, j) have been gone through. */
  predicate Gone(u: Use, d: nat, i: nat, j: nat) {
    || (u.Table? && u.dir == d && u.i < i)
    || (u.Frame? && u.dir == d && (u.i < i || (u.i == i && u.j < j)))
  }

  /** In the middle of vm_teardown: those pages are free, everything else is as it was. */
  ghost predicate Torn(m: Mem, r: Mem, d: nat, i: nat, j: nat) {
    && Sized(m) && Sized(r) && FreeOk(r) && r.kpt == m.kpt
    && (forall p :: 0 <= p < PHY_PAGE ==> r.use[p] == if Gone(m.use[p], d, i, j) then Free else m.use[p])
    && (forall p :: 0 <= p < PHY_PAGE && r.use[p] != Free ==> r.pages[p] == m.pages[p])
  }

  /** One entry of a table. */
  function DropEntry(m: Mem, e: nat): (r: Mem)
    requires Sized(m)
    ensures Sized(r)
  {
    if Present(e) && PageOf(e) < PHY_PAGE then Give(m, PageOf(e)) else m
  }

  /** The first j entries of table t. */
  function DropEntries(m: Mem, t: nat, j: nat): (r: Mem)
    requires Sized(m) && t < PHY_PAGE && j <= NR
    ensures Sized(r)
  {
    if j == 0 then m
    else
      var q := DropEntries(m, t, j - 1);
      DropEntry(q, q.pages[t][j - 1])
  }

  function DropTable(m: Mem, e: nat): (r: Mem)
    requires Sized(m)
    ensures Sized(r)
  {
    if Present(e) && PageOf(e) < PHY_PAGE then Give(DropEntries(m, PageOf(e), NR), PageOf(e)) else m
  }

  /** The tables of entries KERNEL_DIRS to i of directory d. */
  function DropTables(m: Mem, d: nat, i: nat): (r: Mem)
    requires Sized(m) && d < PHY_PAGE && i <= NR
    ensures Sized(r)
  {
    if i <= KERNEL_DIRS then m
    else
      var q := DropTables(m, d, i - 1);
      DropTable(q, q.pages[d][i - 1])
  }

  function Teardown(m: Mem, d: nat): (r: Mem)
    requires Sized(m) && d < PHY_PAGE
    ensures Sized(r)
  {
    Give(DropTables(m, d, NR), d)
  }

  /** Where the pages of an address space are: its tables, and the pages of each, one for each entry. */
  lemma Places(m: Mem)
    requires WF(m)
    ensures forall p :: 0 <= p < PHY_PAGE && m.use[p].Table? ==>
              Heap(p) && KERNEL_DIRS <= m.use[p].i < NR && HasTable(m, m.use[p].dir, m.use[p].i, p)
    ensures forall p :: 0 <= p < PHY_PAGE && m.use[p].Frame? ==>
              Heap(p) && KERNEL_DIRS <= m.use[p].i < NR && m.use[p].j < NR
  {
    hide Or3, Covers, Present, PageOf, Make, OrFlags, HasTable;
    forall p | 0 <= p < PHY_PAGE
      ensures m.use[p].Table? ==> HasTable(m, m.use[p].dir, m.use[p].i, p)
      ensures m.use[p].Frame? ==> Heap(p) && KERNEL_DIRS <= m.use[p].i < NR && m.use[p].j < NR
    {
      assert TableOk(m, p) && FrameOk(m, p);
    }
    TablesInHeap(m);
  }

  lemma TablesInHeap(m: Mem)
    requires Sized(m) && forall p :: 0 <= p < PHY_PAGE && m.use[p].Table? ==> HasTable(m, m.use[p].dir, m.use[p].i, p)
    ensures forall p :: 0 <= p < PHY_PAGE && m.use[p].Table? ==> Heap(p) && KERNEL_DIRS <= m.use[p].i < NR
  {
  }

  lemma PlaceOf(m: Mem, d: nat, i: nat, t: nat, j: nat)
    requires WF(m) && HasTable(m, d, i, t) && j < NR
    ensures Present(m.pages[t][j]) ==>
              Heap(PageOf(m.pages[t][j])) && m.use[PageOf(m.pages[t][j])] == Frame(d, i, j)
    ensures forall p :: 0 <= p < PHY_PAGE && m.use[p] == Frame(d, i, j) ==>
              Present(m.pages[t][j]) && PageOf(m.pages[t][j]) == p
  {
    hide Or3, Covers, Present, PageOf, Make, OrFlags;
    assert TableOk(m, t);
    forall p | 0 <= p < PHY_PAGE && m.use[p] == Frame(d, i, j)
      ensures Present(m.pages[t][j]) && PageOf(m.pages[t][j]) == p
    {
      assert FrameOk(m, p);
    }
  }

  lemma TornEntry(m: Mem, q: Mem, d: nat, i: nat, j: nat, t: nat)
    requires WF(m) && HasTable(m, d, i, t) && j < NR && Torn(m, q, d, i, j)
    ensures t < PHY_PAGE && q.pages[t] == m.pages[t] && Torn(m, DropEntry(q, q.pages[t][j]), d, i, j + 1)
  {
    hide Or3, Covers, Present, PageOf, Make, OrFlags, Linked, FreeOk;
    PlaceOf(m, d, i, t, j);
    var e := m.pages[t][j];
    assert q.use[t] == m.use[t];
    if Present(e) {
      assert q.use[PageOf(e)] == Frame(d, i, j);
      GiveFreeOk(q, PageOf(e));
    }
  }

  lemma {:induction false} TornEntries(m: Mem, q: Mem, d: nat, i: nat, t: nat, j: nat)
    requires WF(m) && HasTable(m, d, i, t) && j <= NR && Torn(m, q, d, i, 0)
    ensures Torn(m, DropEntries(q, t, j), d, i, j)
  {
    hide WF, Torn, DropEntry;
    TornSized(m, q, d, i, 0);
    if j > 0 {
      TornEntries(m, q, d, i, t, j - 1);
      TornEntry(m, DropEntries(q, t, j - 1), d, i, j - 1, t);
    }
  }

  lemma TornSized(m: Mem, q: Mem, d: nat, i: nat, j: nat)
    requires Torn(m, q, d, i, j)
    ensures Sized(m) && Sized(q)
  {
  }

  lemma TableOf(m: Mem, d: nat, i: nat)
    requires WF(m) && IsDir(m, d) && KERNEL_DIRS <= i < NR
    ensures Present(m.pages[d][i]) ==> HasTable(m, d, i, PageOf(m.pages[d][i]))
    ensures forall p :: 0 <= p < PHY_PAGE && m.use[p] == Table(d, i) ==>
              Present(m.pages[d][i]) && PageOf(m.pages[d][i]) == p
    ensures !Present(m.pages[d][i]) ==>
              forall p :: 0 <= p < PHY_PAGE && m.use[p].Frame? && m.use[p].dir == d ==> m.use[p].i != i
  {
    hide Or3, Covers, Present, PageOf, Make, OrFlags;
    assert DirOk(m, d);
    if Present(m.pages[d][i]) {
      assert TableOk(m, PageOf(m.pages[d][i]));
    }
    forall p | 0 <= p < PHY_PAGE && m.use[p] == Table(d, i)
      ensures Present(m.pages[d][i]) && PageOf(m.pages[d][i]) == p
    {
      assert TableOk(m, p);
    }
    forall p | 0 <= p < PHY_PAGE && m.use[p].Frame? && m.use[p].dir == d && m.use[p].i == i
      ensures Present(m.pages[d][i])
    {
      assert FrameOk(m, p);
    }
  }

  lemma TornTable(m: Mem, q: Mem, d: nat, i: nat)
    requires WF(m) && IsDir(m, d) && KERNEL_DIRS <= i < NR && Torn(m, q, d, i, 0)
    ensures q.pages[d] == m.pages[d] && Torn(m, DropTable(q, q.pages[d][i]), d, i + 1, 0)
  {
    hide Or3, Covers, Present, PageOf, Make, OrFlags, DropEntries, Linked, FreeOk;
    TableOf(m, d, i);
    Places(m);
    var e := m.pages[d][i];
    assert q.use[d] == Dir;
    if Present(e) {
      var t := PageOf(e);
      TornEntries(m, q, d, i, t, NR);
      var q2 := DropEntries(q, t, NR);
      assert q2.use[t] == Table(d, i);
      GiveFreeOk(q2, t);
    }
  }

  lemma {:induction false} TornTables(m: Mem, d: nat, i: nat)
    requires WF(m) && IsDir(m, d) && KERNEL_DIRS <= i <= NR
    ensures Torn(m, DropTables(m, d, i), d, i, 0)
  {
    hide WF, Torn, DropTable;
    TornStart(m, d);
    if i > KERNEL_DIRS {
      TornTables(m, d, i - 1);
      TornTable(m, DropTables(m, d, i - 1), d, i - 1);
    }
  }

  lemma TornStart(m: Mem, d: nat)
    requires WF(m) && IsDir(m, d)
    ensures Torn(m, m, d, KERNEL_DIRS, 0)
  {
    hide Linked, FreeOk;
    Places(m);
  }

  /** Directory d, its tables and its pages are free; nothing else has changed hands or content. */
  ghost predicate Removed(m: Mem, r: Mem, d: nat)
    requires Sized(m)
  {
    && Sized(r) && r.kpt == m.kpt
    && (forall p :: 0 <= p < PHY_PAGE ==> r.use[p] == if p == d || OwnedBy(m.use[p], d) then Free else m.use[p])
    && (forall p :: 0 <= p < PHY_PAGE && r.use[p] != Free ==> r.pages[p] == m.pages[p])
  }

  lemma DirInHeap(m: Mem, d: nat)
    requires WF(m) && IsDir(m, d)
    ensures Heap(d)
  {
    assert DirOk(m, d);
  }

  lemma TornIsRemoved(m: Mem, q: Mem, d: nat)
    requires WF(m) && IsDir(m, d) && Torn(m, q, d, NR, 0)
    ensures Removed(m, Give(q, d), d) && FreeOk(Give(q, d))
  {
    hide Linked, FreeOk;
    Places(m);
    DirInHeap(m, d);
    assert q.use[d] == Dir;
    GiveFreeOk(q, d);
  }

  lemma RemovedLinked(m: Mem, r: Mem, d: nat)
    requires WF(m) && IsDir(m, d) && Removed(m, r, d)
    ensures Linked(r)
  {
    hide Or3, Covers, Present, PageOf, Make, OrFlags, FreeOk;
    forall p | 0 <= p < PHY_PAGE
      ensures DirOk(r, p)
    {
      assert DirOk(m, p);
    }
    forall p | 0 <= p < PHY_PAGE
      ensures TableOk(r, p)
    {
      assert TableOk(m, p);
    }
    forall p | 0 <= p < PHY_PAGE
      ensures FrameOk(r, p)
    {
      assert FrameOk(m, p);
    }
  }

  lemma RemovedView(m: Mem, r: Mem, d: nat, d1: nat, v: nat)
    requires WF(m) && WF(r) && IsDir(m, d) && Removed(m, r, d) && IsDir(m, d1) && d1 != d && UserPage(v)
    ensures SameView(m, r, d1, v)
  {
    hide WF, Make, OrFlags, Or3, Covers, And3;
    ViewPlain(m, d1, v);
    UserIndex(v);
  }

  /** vm_teardown gives back exactly what the address space took, and no other address space is touched. */
  lemma TeardownRemoves(m: Mem, d: nat)
    requires WF(m) && IsDir(m, d)
    ensures WF(Teardown(m, d)) && Removed(m, Teardown(m, d), d)
    ensures forall d1: nat, v: nat :: IsDir(m, d1) && d1 != d && UserPage(v) ==> SameView(m, Teardown(m, d), d1, v)
  {
    hide Torn, Removed, ViewOf, Linked, FreeOk, DropTables;
    TornTables(m, d, NR);
    TornIsRemoved(m, DropTables(m, d, NR), d);
    var r := Teardown(m, d);
    RemovedLinked(m, r, d);
    forall d1: nat, v: nat | IsDir(m, d1) && d1 != d && UserPage(v)
      ensures SameView(m, r, d1, v)
    {
      RemovedView(m, r, d, d1, v);
    }
  }

  // ---------------------------------------------------------------- the kernel's part of every address space

  /** Table i of the kernel maps page j of its part to itself. */
  ghost predicate IdentityTable(p: Page, i: int) {
    0 <= i && forall j: nat :: j < NR ==> p[j] == Make(i * NR + j, 3)
  }

  ghost predicate KernelTable(p: Page, i: int) {
    IdentityTable(if i == 0 then p[0 := Make(0, 3)] else p, i) && (i == 0 ==> p[0] == 0)
  }

  /** The kernel's tables map physical memory to itself, all but page 0. */
  ghost predicate KernelTables(m: Mem) {
    && Sized(m) && m.kpt + KERNEL_DIRS <= KER_PAGE
    && forall p :: m.kpt <= p < m.kpt + KERNEL_DIRS ==> KernelTable(m.pages[p], p - m.kpt)
  }

  /** In every address space the kernel finds the whole physical memory at its own address, and address 0 unmapped. */
  lemma IdentityMapped(m: Mem, d: nat, v: nat)
    requires WF(m) && KernelTables(m) && IsDir(m, d) && v < PHY_PAGE
    ensures if v == 0 then ViewOf(m, d, v) == Unmapped else PageOf(Pte(m, d, v)) == v && ViewOf(m, d, v) == Mapped(3, m.pages[v])
  {
    hide FreeOk;
    assert DirOk(m, d);
    var i, j := v / NR, v % NR;
    assert v == i * NR + j;
    assert KernelTable(m.pages[m.kpt + i], i);
    ZeroAbsent();
    assert Or3(3, 1) == 3 && And3(3, 3) == 3;
  }

  /** Pages below the kernel heap are the kernel's. */
  lemma StaticPages(m: Mem)
    requires WF(m)
    ensures forall p :: 0 <= p < KER_PAGE ==> m.use[p] == Kernel
  {
    forall p | 0 <= p < KER_PAGE
      ensures m.use[p] == Kernel
    {
      assert DirOk(m, p) && TableOk(m, p) && FrameOk(m, p);
    }
  }
}
