/** The kernel's page allocator and page tables as they are updated in place (kernel/src/vme.c), each routine proved to do
    to memory what its function in modules PageTables to SpaceTeardown says. */
module VirtualMemory {
  import opened PageTables
  import opened AddressSpaces
  import opened SpaceOps
  import opened SpaceCopy
  import opened SpaceTeardown

  /** The chain of free pages from page p to the last. */
  function Upward(p: nat): (s: seq<nat>)
    requires p <= PHY_PAGE
    ensures |s| == PHY_PAGE - p && forall i :: 0 <= i < |s| ==> s[i] == p + i
  {
    seq<nat>(PHY_PAGE - p, (i: nat) => p + i)
  }

  const PAGE_BYTES := 4096

  /** Page v holds a byte of [va, va + len), or, if that is empty, va is inside of page v and not where it begins. */
  predicate Touches(va: nat, len: nat, v: nat) {
    v * PAGE_BYTES < va + len && va < (v + 1) * PAGE_BYTES
  }

  /** Every byte of [va, va + len) lies on a page that is mapped with prot now, and every page of any address space that
      holds none of them is seen as before. */
  ghost predicate BytesMapped(m: Mem, r: Mem, d: nat, va: nat, len: nat, prot: nat) {
    && WF(m) && WF(r) && IsDir(m, d) && IsDir(r, d) && prot < 8 && va + len <= PAGES * PAGE_BYTES
    && (forall a :: va <= a < va + len ==> MapsTo(ViewOf(m, d, a / PAGE_BYTES), ViewOf(r, d, a / PAGE_BYTES), prot))
    && (len == 0 && va % PAGE_BYTES > 0 && va / PAGE_BYTES < PAGES ==>
          MapsTo(ViewOf(m, d, va / PAGE_BYTES), ViewOf(r, d, va / PAGE_BYTES), prot))
    && (forall d1: nat, v: nat :: IsDir(m, d1) && UserPage(v) && !(d1 == d && Touches(va, len, v)) ==> SameView(m, r, d1, v))
  }

  /** No byte of [va, va + len) lies on a mapped page any more, and every page that holds none of them is seen as before. */
  ghost predicate BytesGone(m: Mem, r: Mem, d: nat, va: nat, len: nat) {
    && WF(m) && WF(r) && IsDir(m, d) && IsDir(r, d) && va + len <= PAGES * PAGE_BYTES
    && (forall a :: va <= a < va + len ==> ViewOf(r, d, a / PAGE_BYTES) == Unmapped)
    && (forall d1: nat, v: nat :: IsDir(m, d1) && UserPage(v) && !(d1 == d && Touches(va, len, v)) ==> SameView(m, r, d1, v))
  }

  lemma TouchedPages(va: nat, len: nat, v: nat)
    ensures Touches(va, len, v) <==> va / PAGE_BYTES <= v < (va + len + PAGE_BYTES - 1) / PAGE_BYTES
  {
  }

  lemma MappedBytes(m: Mem, r: Mem, d: nat, va: nat, len: nat, prot: nat)
    requires WF(m) && IsDir(m, d) && prot < 8 && PHY_PAGE <= va / PAGE_BYTES && va + len + PAGE_BYTES <= PAGES * PAGE_BYTES
    requires var v := va / PAGE_BYTES;
             RangeMapped(m, r, d, v, (va + len + PAGE_BYTES - 1) / PAGE_BYTES - v, prot)
    ensures BytesMapped(m, r, d, va, len, prot)
  {
    hide WF, ViewOf, MapsTo, Touches, RangeNeeds, Grew;
    var v, n := va / PAGE_BYTES, (va + len + PAGE_BYTES - 1) / PAGE_BYTES - va / PAGE_BYTES;
    forall a | va <= a < va + len
      ensures MapsTo(ViewOf(m, d, a / PAGE_BYTES), ViewOf(r, d, a / PAGE_BYTES), prot)
    {
      assert v <= a / PAGE_BYTES < v + n;
    }
    forall d1: nat, v1: nat | IsDir(m, d1) && UserPage(v1) && !(d1 == d && Touches(va, len, v1))
      ensures SameView(m, r, d1, v1)
    {
      TouchedPages(va, len, v1);
    }
  }

  lemma GoneBytes(m: Mem, r: Mem, d: nat, va: nat, len: nat)
    requires WF(m) && IsDir(m, d) && PHY_PAGE <= va / PAGE_BYTES && va + len <= PAGES * PAGE_BYTES
    requires va % PAGE_BYTES == 0 && len % PAGE_BYTES == 0 && RangeGone(m, r, d, va / PAGE_BYTES, len / PAGE_BYTES)
    ensures BytesGone(m, r, d, va, len)
  {
    hide WF, ViewOf, Touches;
    var v, n := va / PAGE_BYTES, len / PAGE_BYTES;
    assert va + len == (v + n) * PAGE_BYTES;
    forall a | va <= a < va + len
      ensures ViewOf(r, d, a / PAGE_BYTES) == Unmapped
    {
      assert v <= a / PAGE_BYTES < v + n;
    }
    forall d1: nat, v1: nat | IsDir(m, d1) && UserPage(v1) && !(d1 == d && Touches(va, len, v1))
      ensures SameView(m, r, d1, v1)
    {
      TouchedPages(va, len, v1);
    }
  }

  class VirtualMemory {
    const kpt: nat
    const mem: array<Page>
    var freePageList: nat
    ghost var use: seq<Use>
    ghost var free: seq<nat>

    ghost predicate Valid()
      reads this, mem
    {
      mem.Length == PHY_PAGE && |use| == PHY_PAGE
    }

    ghost function Now(): (m: Mem)
      requires Valid()
      reads this, mem
      ensures Sized(m)
    {
      Mem(kpt, mem[..], freePageList, use, free)
    }

    /** init_page: the kernel's tables map the physical memory to itself, page 0 excepted, and the kernel heap is free. */
    constructor (kpt: nat)
      requires kpt + KERNEL_DIRS <= KER_PAGE
      ensures Valid() && WF(Now()) && KernelTables(Now()) && this.kpt == kpt
      ensures free == Upward(KER_PAGE) && fresh(mem)
    {
      this.kpt := kpt;
      mem := new Page[PHY_PAGE];
      freePageList := KER_PAGE * 4096;
      use := seq(PHY_PAGE, p requires 0 <= p < PHY_PAGE => if Heap(p) then Free else Kernel);
      free := Upward(KER_PAGE);
      new;
      InitTables();
      InitFreeList();
      InitialWF(Now());
    }

    method InitTables()
      requires Valid() && kpt + KERNEL_DIRS <= KER_PAGE
      modifies mem
      ensures KernelTables(Now())
    {
      var i := 0;
      while i < KERNEL_DIRS
        invariant 0 <= i <= KERNEL_DIRS
        invariant forall p :: kpt <= p < kpt + i ==> IdentityTable(mem[p], p - kpt)
      {
        InitTable(i);
        i := i + 1;
      }
      label Filled:
      mem[kpt] := mem[kpt][0 := 0];
      assert mem[kpt][0 := Make(0, 3)] == old@Filled(mem[kpt]);
    }

    method InitTable(i: nat)
      requires Valid() && i < KERNEL_DIRS && kpt + KERNEL_DIRS <= KER_PAGE
      modifies mem
      ensures IdentityTable(mem[kpt + i], i)
      ensures forall q :: 0 <= q < PHY_PAGE && q != kpt + i ==> mem[q] == old(mem[q])
    {
      var t := kpt + i;
      var j := 0;
      while j < NR
        invariant 0 <= j <= NR
        invariant forall k: nat :: k < j ==> mem[t][k] == Make(i * NR + k, 3)
        invariant forall q :: 0 <= q < PHY_PAGE && q != t ==> mem[q] == old(mem[q])
      {
        mem[t] := mem[t][j := Make(i * NR + j, 3)];
        j := j + 1;
      }
    }

    method InitFreeList()
      requires Valid() && KernelTables(Now())
      modifies mem
      ensures KernelTables(Now())
      ensures forall p :: KER_PAGE <= p < PHY_PAGE ==> mem[p][0] == if p + 1 < PHY_PAGE then (p + 1) * 4096 else 0
    {
      var p := KER_PAGE;
      while p < PHY_PAGE - 1
        invariant KER_PAGE <= p <= PHY_PAGE - 1
        invariant forall q :: KER_PAGE <= q < p ==> mem[q][0] == (q + 1) * 4096
        invariant forall q :: 0 <= q < KER_PAGE ==> mem[q] == old(mem[q])
      {
        mem[p] := mem[p][0 := (p + 1) * 4096];
        p := p + 1;
      }
      mem[p] := mem[p][0 := 0];
    }

    method ZeroPage(p: nat)
      requires Valid() && p < PHY_PAGE
      modifies mem
      ensures mem[..] == old(mem[..])[p := Zeros()]
    {
      var i := 0;
      while i < NR
        invariant 0 <= i <= NR
        invariant forall k :: 0 <= k < i ==> mem[p][k] == 0
        invariant forall q :: 0 <= q < PHY_PAGE && q != p ==> mem[q] == old(mem[q])
      {
        mem[p] := mem[p][i := 0];
        i := i + 1;
      }
      assert mem[p] == Zeros();
    }

    /** kalloc; `u` says what the page is for. */
    method Kalloc(ghost u: Use) returns (p: nat)
      requires Valid() && FreeOk(Now()) && free != [] && u != Free
      modifies mem, `freePageList, `use, `free
      ensures Valid() && FreeOk(Now()) && p == old(free)[0] && Heap(p) && old(use)[p] == Free
      ensures Now() == Take(old(Now()), u)
    {
      hide FreeOk;
      TakeFreeOk(Now(), u);
      HeadFree(Now());
      p := freePageList / 4096;
      freePageList := mem[p][0];
      use, free := use[p := u], free[1..];
      ZeroPage(p);
    }

    /** kfree, of a page of the kernel heap, with a page left in the free list. */
    method Kfree(ptr: nat)
      requires Valid() && FreeOk(Now()) && Heap(ptr / 4096) && use[ptr / 4096] != Free && free != []
      modifies mem, `freePageList, `use, `free
      ensures Valid() && FreeOk(Now()) && Now() == Give(old(Now()), ptr / 4096) && free != []
    {
      hide FreeOk;
      GiveFreeOk(Now(), ptr / 4096);
      HeadFree(Now());
      assert KER_PAGE <= freePageList / 4096 < PHY_PAGE;
      var page := ptr / 4096;
      ZeroPage(page);
      mem[page] := mem[page][0 := freePageList];
      freePageList := page * 4096;
      use, free := use[page := Free], [page] + free;
      assert Now() == Give(old(Now()), page);
    }

    method SetEntry(p: nat, k: nat, w: nat)
      requires Valid() && p < PHY_PAGE && k < NR
      modifies mem
      ensures Valid() && Now() == SetWord(old(Now()), p, k, w)
    {
      mem[p] := mem[p][k := w];
    }

    /** vm_walkpte: the page of the table that holds the entry of v, if there is or was made one. */
    method WalkPte(d: nat, v: nat, prot: nat) returns (found: bool, t: nat)
      requires Valid() && WF(Now()) && IsDir(Now(), d) && UserPage(v) && prot < 8
      requires !Present(mem[d][v / NR]) && prot % 2 == 1 ==> free != []
      modifies mem, `freePageList, `use, `free
      ensures Valid()
      ensures !Present(old(mem[d])[v / NR]) && prot % 2 == 1 ==> old(free) != [] && old(free)[0] < PHY_PAGE
      ensures v / NR < NR && Now() == PageTables.WalkPte(old(Now()), d, v / NR, prot)
      ensures found <==> Present(mem[d][v / NR])
      ensures found ==> t == PageOf(mem[d][v / NR])
    {
      UserIndex(v);
      var i := v / NR;
      var e := mem[d][i];
      if !Present(e) && prot % 2 == 1 {
        ghost var m := Now();
        t := Kalloc(Table(d, i));
        SetEntry(d, i, Make(t, prot));
        assert mem[d][i] == Make(t, prot);
        found := true;
      } else if !Present(e) && prot % 2 == 0 {
        found, t := false, 0;
      } else {
        if prot != 0 {
          SetEntry(d, i, OrFlags(e, prot));
        }
        found, t := true, PageOf(mem[d][i]);
      }
    }

    /** vm_alloc */
    method VmAlloc() returns (d: nat)
      requires Valid() && WF(Now()) && free != []
      modifies mem, `freePageList, `use, `free
      ensures Valid() && old(free) != [] && d == old(free)[0] && d < PHY_PAGE && Now() == AllocDir(old(Now()))
    {
      d := Kalloc(Dir);
      var i := 0;
      while i < KERNEL_DIRS
        modifies mem
        invariant 0 <= i <= KERNEL_DIRS
        invariant forall q :: 0 <= q < PHY_PAGE && q != d ==> mem[q] == old(mem[q])
        invariant forall k :: 0 <= k < NR ==> mem[d][k] == if k < i then Make(kpt + k, 3) else 0
      {
        mem[d] := mem[d][i := Make(kpt + i, 3)];
        i := i + 1;
      }
      while i < NR
        modifies mem
        invariant KERNEL_DIRS <= i <= NR
        invariant forall q :: 0 <= q < PHY_PAGE && q != d ==> mem[q] == old(mem[q])
        invariant forall k :: 0 <= k < NR ==> mem[d][k] == if k < KERNEL_DIRS then Make(kpt + k, 3) else 0
      {
        mem[d] := mem[d][i := 0];
        i := i + 1;
      }
      assert mem[d] == KernelDir(kpt);
    }

    /** The body of vm_map's loop. */
    method MapOne(d: nat, v: nat, prot: nat)
      requires Valid() && CanMap(Now(), d, v, prot)
      modifies mem, `freePageList, `use, `free
      ensures Valid() && Now() == MapStep(old(Now()), d, v, prot)
    {
      hide WF, ViewOf, Or3, Covers, OrFlags, Make, And3, PageTables.WalkPte;
      ghost var m := Now();
      WalkToMap(m, d, v, prot);
      ghost var w := PageTables.WalkPte(m, d, v / NR, prot);
      WalkedNeeds(m, w, d, v, prot);
      var found, t := WalkPte(d, v, prot);
      assert Now() == w;
      UserIndex(v);
      var j := v % NR;
      var e := mem[t][j];
      if !Present(e) {
        SetPteReady(w, d, v / NR, j, t);
        var page := Kalloc(Frame(d, v / NR, j));
        SetEntry(t, j, Make(page, prot));
      } else {
        SetEntry(t, j, OrFlags(e, prot));
      }
    }

    /** PAGE_DOWN(va) and PAGE_UP(va + len), as page numbers. */
    static function PageDown(va: nat): nat {
      va / 4096
    }

    static function PageUp(va: nat): nat {
      (va + 4095) / 4096
    }

    /** vm_map of the pages from PAGE_DOWN(va) to PAGE_UP(va + len), which must not pass the end of memory. */
    method VmMap(d: nat, va: nat, len: nat, prot: nat)
      requires va + len + 4095 < 0x1_0000_0000 && PageDown(va) >= PHY_PAGE && prot < 8 && prot % 2 == 1
      requires Valid() && WF(Now()) && IsDir(Now(), d)
      requires RangeNeeds(Now(), d, PageDown(va), PageUp(va + len) - PageDown(va)) <= |free|
      modifies mem, `freePageList, `use, `free
      ensures Valid() && Now() == MapRange(old(Now()), d, PageDown(va), PageUp(va + len) - PageDown(va), prot)
      ensures RangeMapped(old(Now()), Now(), d, PageDown(va), PageUp(va + len) - PageDown(va), prot)
      ensures BytesMapped(old(Now()), Now(), d, va, len, prot)
    {
      hide WF, RangeMapped, MapStep, CanMap, RangeNeeds, BytesMapped;
      ghost var m := Now();
      var start, end := PageDown(va), PageUp(va + len);
      var v := start;
      while v < end
        invariant start <= v <= end && Valid() && Now() == MapRange(m, d, start, v - start, prot)
      {
        NeedsPart(m, d, start, v + 1 - start, end - start);
        MapRangeMaps(m, d, start, v + 1 - start, prot);
        MapOne(d, v, prot);
        v := v + 1;
      }
      MapRangeMaps(m, d, start, end - start, prot);
      MappedBytes(m, Now(), d, va, len, prot);
    }

    /** vm_unmap; with nothing free, kfree would fail. */
    method VmUnmap(d: nat, va: nat, len: nat)
      requires va % 4096 == 0 && len % 4096 == 0 && va + len <= 0x1_0000_0000 && PageDown(va) >= PHY_PAGE
      requires Valid() && WF(Now()) && IsDir(Now(), d) && free != []
      modifies mem, `freePageList, `use, `free
      ensures Valid() && RangeGone(old(Now()), Now(), d, PageDown(va), len / 4096)
      ensures BytesGone(old(Now()), Now(), d, va, len)
    {
      hide WF, RangeGone, UnmapPage, BytesGone;
      ghost var m := Now();
      var start, n := PageDown(va), len / 4096;
      var k := 0;
      while k < n
        invariant 0 <= k <= n && Valid() && Now() == UnmapRange(m, d, start, k) && free != []
      {
        UnmapRangeUnmaps(m, d, start, k);
        GoneFacts(m, Now(), d, start, k);
        UnmapOne(d, start + k);
        k := k + 1;
      }
      UnmapRangeUnmaps(m, d, start, n);
      GoneBytes(m, Now(), d, va, len);
    }

    // ---------------------------------------------------------------- fork

    /** The body of vm_copycurr's loop. */
    method CopyOne(src: nat, d: nat, v: nat)
      requires Valid() && WF(Now()) && IsDir(Now(), src) && IsDir(Now(), d) && src != d && UserPage(v)
      requires ViewOf(Now(), d, v) == Unmapped && (ViewOf(Now(), src, v).Mapped? ==> Needs(Now(), d, v) <= |free|)
      modifies mem, `freePageList, `use, `free
      ensures Valid() && Now() == CopyPage(old(Now()), src, d, v)
    {
      hide WF, ViewOf, Make, OrFlags, Or3, Covers, And3, MapPage, PageTables.WalkPte, PageOf;
      ghost var m := Now();
      ViewPlain(m, src, v);
      UserIndex(v);
      WalkNothing(m, src, v);
      var found, t := WalkPte(src, v, 0);
      if found {
        var e := mem[t][v % NR];
        if Present(e) {
          MapOne(d, v, Flags(e));
          ghost var q := Now();
          MapPageMaps(m, d, v, Flags(e));
          assert SameView(m, q, src, v);
          ViewPlain(q, src, v);
          ViewPlain(q, d, v);
          WalkNothing(q, src, v);
          WalkNothing(q, d, v);
          var found1, t1 := WalkPte(src, v, 0);
          var found2, t2 := WalkPte(d, v, 0);
          var pa, newPa := PageOf(mem[t1][v % NR]), PageOf(mem[t2][v % NR]);
          mem[newPa] := mem[pa];
        }
      }
    }

    /** vm_copycurr, of address space src, the current one, to the new one d. */
    method VmCopyCurr(src: nat, d: nat)
      requires Valid() && WF(Now()) && IsDir(Now(), src) && IsDir(Now(), d) && src != d && Bare(Now(), d)
      requires CopyNeeds(Now(), src, USR_PAGE - PHY_PAGE) <= |free|
      modifies mem, `freePageList, `use, `free
      ensures Valid() && Now() == CopySpace(old(Now()), src, d)
    {
      hide WF, ViewOf, CopyPage, CopyNeeds, Copied, Bare;
      ghost var m := Now();
      var v := PHY_PAGE;
      while v < USR_PAGE
        invariant PHY_PAGE <= v <= USR_PAGE && Valid() && Now() == CopyRange(m, src, d, v - PHY_PAGE)
      {
        CopyPart(m, src, v + 1 - PHY_PAGE, USR_PAGE - PHY_PAGE);
        CopyPart(m, src, v - PHY_PAGE, v + 1 - PHY_PAGE);
        CopyRangeCopies(m, src, d, v - PHY_PAGE);
        CopyReady(m, Now(), src, d, v + 1 - PHY_PAGE);
        CopyOne(src, d, v);
        v := v + 1;
      }
    }

    // ---------------------------------------------------------------- teardown

    method FreeEntry(e: nat)
      requires Valid() && FreeOk(Now()) && free != []
      requires Present(e) ==> Heap(PageOf(e)) && use[PageOf(e)] != Free
      modifies mem, `freePageList, `use, `free
      ensures Valid() && FreeOk(Now()) && Now() == DropEntry(old(Now()), e) && free != []
    {
      if Present(e) {
        PageAddress(PageOf(e));
        Kfree(PageOf(e) * 4096);
      }
    }

    /** The inner loop of vm_teardown. */
    method FreeEntries(ghost m: Mem, d: nat, i: nat, t: nat)
      requires Valid() && WF(m) && HasTable(m, d, i, t) && Torn(m, Now(), d, i, 0) && free != []
      modifies mem, `freePageList, `use, `free
      ensures Valid() && free != [] && t < PHY_PAGE && Now() == DropEntries(old(Now()), t, NR)
    {
      hide WF, DropEntry, DropEntries, HasTable, Present, PageOf, Torn, FreeOk;
      ghost var q := Now();
      TornReady(m, q, d, i, 0, t);
      DropNone(q, t);
      var j := 0;
      while j < NR
        invariant 0 <= j <= NR && Valid() && free != [] && Now() == DropEntries(q, t, j)
      {
        TornEntries(m, q, d, i, t, j);
        TornReady(m, Now(), d, i, j, t);
        DropNext(q, t, j);
        FreeEntry(mem[t][j]);
        j := j + 1;
      }
    }

    /** The table of entry i, its pages first. */
    method FreeTable(ghost m: Mem, d: nat, i: nat)
      requires Valid() && WF(m) && IsDir(m, d) && KERNEL_DIRS <= i < NR && Torn(m, Now(), d, i, 0) && free != []
      modifies mem, `freePageList, `use, `free
      ensures Valid() && free != []
      ensures i < NR && d < PHY_PAGE && Now() == DropTable(old(Now()), old(mem[d])[i])
    {
      hide WF, DropEntries, HasTable, Present, PageOf, Torn;
      ghost var q := Now();
      TornTable(m, q, d, i);
      TableOf(m, d, i);
      var e := mem[d][i];
      if Present(e) {
        var t := PageOf(e);
        TornEntries(m, q, d, i, t, NR);
        FreeEntries(m, d, i, t);
        TornReady(m, Now(), d, i, NR, t);
        TableSane(m, d, i, t);
        PageAddress(t);
        Kfree(t * 4096);
      }
    }

    /** vm_teardown; as always with kfree, a page must be free. */
    method VmTeardown(d: nat)
      requires Valid() && WF(Now()) && IsDir(Now(), d) && free != []
      modifies mem, `freePageList, `use, `free
      ensures Valid() && d < PHY_PAGE && Now() == Teardown(old(Now()), d)
    {
      hide WF, Torn, DropTable;
      ghost var m := Now();
      var i := KERNEL_DIRS;
      while i < NR
        invariant KERNEL_DIRS <= i <= NR && Valid() && free != [] && Now() == DropTables(m, d, i)
      {
        TornTables(m, d, i);
        TornTable(m, Now(), d, i);
        FreeTable(m, d, i);
        i := i + 1;
      }
      TornTables(m, d, NR);
      DirTorn(m, Now(), d);
      PageAddress(d);
      Kfree(d * 4096);
    }

    method UnmapOne(d: nat, v: nat)
      requires Valid() && WF(Now()) && IsDir(Now(), d) && UserPage(v) && free != []
      modifies mem, `freePageList, `use, `free
      ensures Valid() && Now() == UnmapPage(old(Now()), d, v) && free != []
    {
      hide ViewOf, Make, OrFlags, Or3, Covers, And3, Linked, ClearPresent, PageTables.WalkPte, PageOf;
      ghost var m := Now();
      ViewPlain(m, d, v);
      UserIndex(v);
      WalkNothing(m, d, v);
      var found, t := WalkPte(d, v, 0);
      if found {
        var e := mem[t][v % NR];
        if Present(e) {
          PageAddress(PageOf(e));
          Kfree(PageOf(e) * 4096);
          SetEntry(t, v % NR, ClearPresent(mem[t][v % NR]));
        }
      }
    }
  }

  lemma HeadFree(m: Mem)
    requires Sized(m) && FreeOk(m) && m.free != []
    ensures m.head / 4096 == m.free[0] && Heap(m.free[0]) && m.use[m.free[0]] == Free
  {
  }

  lemma PageAddress(p: nat)
    ensures p * 4096 / 4096 == p
  {
  }

  lemma WalkNothing(m: Mem, d: nat, v: nat)
    requires WF(m) && IsDir(m, d) && UserPage(v)
    ensures v / NR < NR && PageTables.WalkPte(m, d, v / NR, 0) == m
  {
    UserIndex(v);
  }

  lemma GoneFacts(m: Mem, r: Mem, d: nat, v: nat, n: nat)
    requires Sized(m) && d < PHY_PAGE && PHY_PAGE <= v && v + n <= PAGES && RangeGone(m, r, d, v, n)
    ensures WF(r) && IsDir(r, d)
  {
  }

  lemma SetPteReady(w: Mem, d: nat, i: nat, j: nat, t: nat)
    requires WF(w) && HasTable(w, d, i, t) && w.free != []
    ensures FreeOk(w) && w.free[0] != t
  {
  }

  lemma {:induction false} NeedsPart(m: Mem, d: nat, v: nat, k: nat, n: nat)
    requires Sized(m) && d < PHY_PAGE && k <= n && v + n <= PAGES
    ensures RangeNeeds(m, d, v, k) <= RangeNeeds(m, d, v, n)
  {
    if k < n {
      NeedsPart(m, d, v, k, n - 1);
    }
  }

  lemma {:induction false} CopyPart(m: Mem, src: nat, k: nat, n: nat)
    requires Sized(m) && src < PHY_PAGE && k <= n && PHY_PAGE + n <= PAGES
    ensures CopyNeeds(m, src, k) <= CopyNeeds(m, src, n)
  {
    if k < n {
      NeedsGrow(m, src, n);
      CopyPart(m, src, k, n - 1);
    }
  }

  lemma DropNone(q: Mem, t: nat)
    requires Sized(q) && t < PHY_PAGE
    ensures DropEntries(q, t, 0) == q
  {
  }

  lemma DropNext(q: Mem, t: nat, j: nat)
    requires Sized(q) && t < PHY_PAGE && j < NR
    ensures var r := DropEntries(q, t, j); DropEntries(q, t, j + 1) == DropEntry(r, r.pages[t][j])
  {
  }

  lemma TableSane(m: Mem, d: nat, i: nat, t: nat)
    requires WF(m) && HasTable(m, d, i, t)
    ensures Heap(t) && m.use[t] == Table(d, i)
  {
  }

  lemma TornReady(m: Mem, q: Mem, d: nat, i: nat, j: nat, t: nat)
    requires WF(m) && HasTable(m, d, i, t) && j <= NR && Torn(m, q, d, i, j)
    ensures FreeOk(q) && t < PHY_PAGE && q.use[t] == Table(d, i)
    ensures j < NR && Present(q.pages[t][j]) ==> Heap(PageOf(q.pages[t][j])) && q.use[PageOf(q.pages[t][j])] != Free
  {
    hide Present, PageOf, Linked, FreeOk, Or3, Covers;
    assert q.use[t] == Table(d, i);
    if j < NR {
      PlaceOf(m, d, i, t, j);
    }
  }

  lemma DirTorn(m: Mem, q: Mem, d: nat)
    requires WF(m) && IsDir(m, d) && Torn(m, q, d, NR, 0)
    ensures FreeOk(q) && Heap(d) && q.use[d] == Dir
  {
    hide Linked, FreeOk;
    DirInHeap(m, d);
  }

  lemma InitialWF(m: Mem)
    requires Sized(m) && m.free == Upward(KER_PAGE) && m.head == KER_PAGE * 4096
    requires forall p :: 0 <= p < PHY_PAGE ==> m.use[p] == if Heap(p) then Free else Kernel
    requires forall p :: KER_PAGE <= p < PHY_PAGE ==> m.pages[p][0] == if p + 1 < PHY_PAGE then (p + 1) * 4096 else 0
    ensures WF(m)
  {
    forall p | 0 <= p < PHY_PAGE && m.use[p] == Free
      ensures p in m.free
    {
      assert m.free[p - KER_PAGE] == p;
    }
  }
}
