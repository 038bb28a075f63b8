/** Every run of the operations on address spaces: the kernel heap stays shared out, and an address space leaves no trace. */
module SpaceRuns {
  import opened PageTables
  import opened AddressSpaces
  import opened SpaceOps
  import opened SpaceCopy
  import opened SpaceTeardown

  datatype Op =
    | Create                                          // vm_alloc
    | Map(d: nat, v: nat, n: nat, prot: nat)
    | Unmap(d: nat, v: nat, n: nat)
    | Write(d: nat, v: nat, k: nat, w: nat)           // a store by a process
    | Copy(src: nat, d: nat)                          // vm_copycurr
    | Destroy(d: nat)                                 // vm_teardown
    | TakeStack                                       // kalloc of a kernel stack
    | GiveStack(p: nat)                               // its kfree

  /** What the kernel must see to: directories that exist, ranges above PHY_MEM, pages enough; and, as kfree looks at the
      head of the free list, one free page. */
  ghost predicate Ready(m: Mem, op: Op) {
    Sized(m) &&
    match op
    case Create => m.free != []
    case Map(d, v, n, prot) =>
      && IsDir(m, d) && PHY_PAGE <= v && v + n <= PAGES && prot < 8 && prot % 2 == 1
      && RangeNeeds(m, d, v, n) <= |m.free|
    case Unmap(d, v, n) => IsDir(m, d) && PHY_PAGE <= v && v + n <= PAGES && m.free != []
    case Write(d, v, k, w) => IsDir(m, d) && UserPage(v) && k < NR && ViewOf(m, d, v).Mapped?
    case Copy(src, d) =>
      IsDir(m, src) && IsDir(m, d) && src != d && Bare(m, d) && CopyNeeds(m, src, USR_PAGE - PHY_PAGE) <= |m.free|
    case Destroy(d) => IsDir(m, d) && m.free != []
    case TakeStack => m.free != []
    case GiveStack(p) => Heap(p) && m.use[p] == Kernel && m.free != []
  }

  ghost function Apply(m: Mem, op: Op): Mem
    requires WF(m) && Ready(m, op)
  {
    match op
    case Create => AllocDir(m)
    case Map(d, v, n, prot) => MapRange(m, d, v, n, prot)
    case Unmap(d, v, n) => UnmapRange(m, d, v, n)
    case Write(d, v, k, w) => Store(m, d, v, k, w)
    case Copy(src, d) => CopySpace(m, src, d)
    case Destroy(d) => Teardown(m, d)
    case TakeStack => Take(m, Kernel)
    case GiveStack(p) => Give(m, p)
  }

  /** The kernel's own page changes hands, and no address space notices. */
  lemma KernelPage(m: Mem, r: Mem, p: nat)
    requires WF(m) && Sized(r) && FreeOk(r) && r.kpt == m.kpt && Heap(p)
    requires (m.use[p] == Free && r.use[p] == Kernel) || (m.use[p] == Kernel && r.use[p] == Free)
    requires r.use == m.use[p := r.use[p]] && forall q :: 0 <= q < PHY_PAGE && q != p ==> r.pages[q] == m.pages[q]
    ensures WF(r)
  {
    hide Or3, Covers, Present, PageOf, Make, OrFlags, FreeOk;
    forall q | 0 <= q < PHY_PAGE
      ensures DirOk(r, q) && TableOk(r, q) && FrameOk(r, q)
    {
      assert DirOk(m, q) && TableOk(m, q) && FrameOk(m, q);
    }
  }

  lemma StackKeeps(m: Mem, op: Op)
    requires WF(m) && Ready(m, op) && (op.TakeStack? || op.GiveStack?)
    ensures WF(Apply(m, op))
  {
    hide Linked;
    if op.TakeStack? {
      TakeFreeOk(m, Kernel);
      KernelPage(m, Apply(m, op), m.free[0]);
    } else {
      GiveFreeOk(m, op.p);
      KernelPage(m, Apply(m, op), op.p);
    }
  }

  /** Every operation leaves the heap shared out: each page free, the kernel's, or in one place of one address space. */
  lemma ApplyKeeps(m: Mem, op: Op)
    requires WF(m) && Ready(m, op)
    ensures WF(Apply(m, op))
  {
    hide WF, ViewOf, CopySpace, MapRange, UnmapRange, Store, AllocDir, Teardown, CopyNeeds, RangeNeeds, Bare;
    match op
    case Create => CreateKeeps(m);
    case Map(d, v, n, prot) => MapRangeMaps(m, d, v, n, prot);
    case Unmap(d, v, n) => UnmapRangeUnmaps(m, d, v, n);
    case Write(d, v, k, w) => StoreIsPrivate(m, d, v, k, w);
    case Copy(src, d) => ForkCopies(m, src, d, PHY_PAGE);
    case Destroy(d) => TeardownRemoves(m, d);
    case _ => StackKeeps(m, op);
  }

  lemma CreateKeeps(m: Mem)
    requires WF(m) && m.free != []
    ensures m.free[0] < PHY_PAGE && WF(AllocDir(m))
  {
    hide ViewOf;
    AllocDirMakes(m);
  }

  /** No operation touches the kernel's own tables, so that its view of physical memory stays. */
  lemma TablesKept(m: Mem, op: Op)
    requires WF(m) && Ready(m, op) && KernelTables(m)
    ensures KernelTables(Apply(m, op))
  {
    hide WF, Apply, Ready, ViewOf;
    StaticPages(m);
    StaticKept(m, op);
  }

  lemma StaticKept(m: Mem, op: Op)
    requires WF(m) && Ready(m, op)
    ensures Sized(Apply(m, op)) && Apply(m, op).kpt == m.kpt
    ensures forall p :: 0 <= p < KER_PAGE ==> Apply(m, op).pages[p] == m.pages[p]
  {
    hide WF, ViewOf, CopySpace, MapRange, UnmapRange, Store, AllocDir, Teardown, CopyNeeds, RangeNeeds, Bare;
    StaticPages(m);
    match op
    case Create =>
      CreateKeeps(m);
      AllocStatic(m);
    case Map(d, v, n, prot) => MapRangeMaps(m, d, v, n, prot);
    case Unmap(d, v, n) => UnmapRangeLocal(m, d, v, n);
    case Write(d, v, k, w) => StoreLocal(m, d, v, k, w);
    case Copy(src, d) => ForkCopies(m, src, d, PHY_PAGE);
    case Destroy(d) => TeardownRemoves(m, d);
    case TakeStack => AllocStatic(m);
    case GiveStack(p) =>
  }

  lemma AllocStatic(m: Mem)
    requires WF(m) && m.free != []
    ensures KER_PAGE <= m.free[0] < PHY_PAGE
    ensures forall p :: 0 <= p < KER_PAGE ==> AllocDir(m).pages[p] == m.pages[p]
    ensures AllocDir(m).kpt == m.kpt
  {
  }

  /** A run, each operation made when the kernel may make it. */
  ghost predicate Runs(m: Mem, ops: seq<Op>, r: Mem)
    decreases |ops|
  {
    if ops == [] then r == m
    else WF(m) && Ready(m, ops[0]) && Runs(Apply(m, ops[0]), ops[1..], r)
  }

  /** The heap stays shared out over every run. */
  lemma {:induction false} RunKeeps(m: Mem, ops: seq<Op>, r: Mem)
    requires WF(m) && Runs(m, ops, r)
    ensures WF(r)
    decreases |ops|
  {
    hide WF, Apply, Ready;
    if ops != [] {
      ApplyKeeps(m, ops[0]);
      RunKeeps(Apply(m, ops[0]), ops[1..], r);
    }
  }

  // ---------------------------------------------------------------- the life of one address space

  /** Only free pages and pages of d changed hands, staying free or d's; the kernel's pages, and what every other
      address space shows, are as they were. */
  ghost predicate Local(m: Mem, r: Mem, d: nat) {
    && WF(m) && WF(r) && IsDir(m, d) && IsDir(r, d)
    && (forall p :: 0 <= p < PHY_PAGE ==>
          if m.use[p] == Free || OwnedBy(m.use[p], d) then r.use[p] == Free || OwnedBy(r.use[p], d) else r.use[p] == m.use[p])
    && m.kpt == r.kpt && (forall p :: 0 <= p < PHY_PAGE && m.use[p] == Kernel ==> r.pages[p] == m.pages[p])
    && (forall d1: nat, v1: nat :: IsDir(m, d1) && UserPage(v1) && d1 != d ==> SameView(m, r, d1, v1))
  }

  lemma LocalTrans(m: Mem, q: Mem, r: Mem, d: nat)
    requires Local(m, q, d) && Local(q, r, d)
    ensures Local(m, r, d)
  {
    hide WF, ViewOf;
    forall d1: nat, v1: nat | IsDir(m, d1) && UserPage(v1) && d1 != d
      ensures SameView(m, r, d1, v1)
    {
      assert SameView(m, q, d1, v1) && SameView(q, r, d1, v1);
    }
  }

  /** Operations that work on address space d alone, or make it a copy of another. */
  predicate On(op: Op, d: nat) {
    (op.Map? || op.Unmap? || op.Write? || op.Copy?) && op.d == d
  }

  lemma UnmapLocal(m: Mem, d: nat, v: nat)
    requires WF(m) && IsDir(m, d) && UserPage(v)
    ensures Local(m, UnmapPage(m, d, v), d)
  {
    hide WF, ViewOf, Make, OrFlags, Or3, Covers, And3, ClearPresent;
    UnmapPageUnmaps(m, d, v);
    if Present(Pte(m, d, v)) && Present(m.pages[d][v / NR]) {
      UnmapDrops(m, d, v);
    }
  }

  lemma {:induction false} UnmapRangeLocal(m: Mem, d: nat, v: nat, n: nat)
    requires WF(m) && IsDir(m, d) && PHY_PAGE <= v && v + n <= PAGES
    ensures Local(m, UnmapRange(m, d, v, n), d)
  {
    hide WF, ViewOf, UnmapPage;
    if n > 0 {
      UnmapRangeLocal(m, d, v, n - 1);
      UnmapLocal(UnmapRange(m, d, v, n - 1), d, v + n - 1);
      LocalTrans(m, UnmapRange(m, d, v, n - 1), UnmapRange(m, d, v, n), d);
    }
  }

  lemma GrewLocal(m: Mem, r: Mem, d: nat)
    requires WF(m) && WF(r) && IsDir(m, d) && IsDir(r, d) && Grew(m, r, d)
    requires forall d1: nat, v1: nat :: IsDir(m, d1) && UserPage(v1) && d1 != d ==> SameView(m, r, d1, v1)
    ensures Local(m, r, d)
  {
    hide WF, ViewOf;
  }

  lemma StoreLocal(m: Mem, d: nat, v: nat, k: nat, w: nat)
    requires WF(m) && IsDir(m, d) && UserPage(v) && ViewOf(m, d, v).Mapped? && k < NR
    ensures Local(m, Store(m, d, v, k, w), d)
  {
    hide WF, ViewOf, Make, OrFlags, Or3, Covers, And3;
    ViewPlain(m, d, v);
    StoreIsPrivate(m, d, v, k, w);
  }

  lemma OpLocal(m: Mem, op: Op, d: nat)
    requires WF(m) && Ready(m, op) && On(op, d)
    ensures Local(m, Apply(m, op), d)
  {
    hide WF, ViewOf, CopySpace, MapRange, UnmapRange, Store, CopyNeeds, RangeNeeds, Bare;
    match op
    case Map(_, v, n, prot) =>
      MapRangeMaps(m, d, v, n, prot);
      GrewLocal(m, MapRange(m, d, v, n, prot), d);
    case Unmap(_, v, n) => UnmapRangeLocal(m, d, v, n);
    case Write(_, v, k, w) => StoreLocal(m, d, v, k, w);
    case Copy(src, _) =>
      ForkCopies(m, src, d, PHY_PAGE);
      GrewLocal(m, CopySpace(m, src, d), d);
  }

  lemma {:induction false} RunLocal(m: Mem, ops: seq<Op>, r: Mem, d: nat)
    requires WF(m) && IsDir(m, d) && Runs(m, ops, r) && forall i :: 0 <= i < |ops| ==> On(ops[i], d)
    ensures Local(m, r, d)
    decreases |ops|
  {
    hide WF, Apply, Ready, ViewOf;
    if ops == [] {
      SelfLocal(m, d);
    } else {
      var q := Apply(m, ops[0]);
      OpLocal(m, ops[0], d);
      RunLocal(q, ops[1..], r, d);
      LocalTrans(m, q, r, d);
    }
  }

  lemma SelfLocal(m: Mem, d: nat)
    requires WF(m) && IsDir(m, d)
    ensures Local(m, m, d)
  {
    hide WF, ViewOf;
  }

  lemma {:induction false} Fewer(a: seq<nat>, b: seq<nat>)
    requires forall i, j :: 0 <= i < j < |a| ==> a[i] != a[j]
    requires forall i :: 0 <= i < |a| ==> a[i] in b
    ensures |a| <= |b|
  {
    if a != [] {
      var k :| 0 <= k < |b| && b[k] == a[0];
      var c := b[..k] + b[k + 1..];
      forall i | 0 <= i < |a[1..]|
        ensures a[1..][i] in c
      {
        var l :| 0 <= l < |b| && b[l] == a[i + 1];
        assert l != k && b[l] == if l < k then c[l] else c[l - 1];
      }
      Fewer(a[1..], c);
    }
  }

  lemma SameUseSameFree(m: Mem, r: Mem)
    requires Sized(m) && Sized(r) && FreeOk(m) && FreeOk(r) && m.use == r.use
    ensures |m.free| == |r.free|
  {
    assert forall i :: 0 <= i < |m.free| ==> r.use[m.free[i]] == Free;
    assert forall i :: 0 <= i < |r.free| ==> m.use[r.free[i]] == Free;
    Fewer(m.free, r.free);
    Fewer(r.free, m.free);
  }

  /** An address space made, filled, written, unmapped, copied into in any way and torn down leaves no trace: every page
      is used as before, as many are free, and all other address spaces show what they showed. */
  lemma LifeLeavesNoTrace(m: Mem, ops: seq<Op>, r: Mem)
    requires WF(m) && m.free != [] && Runs(AllocDir(m), ops, r) && forall i :: 0 <= i < |ops| ==> On(ops[i], m.free[0])
    ensures m.free[0] < PHY_PAGE && Sized(r)
    ensures var z := Teardown(r, m.free[0]);
            && WF(z) && z.use == m.use && |z.free| == |m.free|
            && (forall p :: 0 <= p < PHY_PAGE && m.use[p] == Kernel ==> z.pages[p] == m.pages[p])
    ensures forall d1: nat, v1: nat :: IsDir(m, d1) && UserPage(v1) ==> SameView(m, Teardown(r, m.free[0]), d1, v1)
  {
    hide Linked, FreeOk, Apply, Ready, ViewOf, Teardown, AllocDir, Runs;
    var d := m.free[0];
    AllocDirMakes(m);
    var q := AllocDir(m);
    NoneOwned(m, d);
    RunLocal(q, ops, r, d);
    TeardownRemoves(r, d);
    var z := Teardown(r, d);
    assert forall p :: 0 <= p < PHY_PAGE ==> z.use[p] == m.use[p];
    AllocKernel(m);
    assert z.use == m.use;
    SameUseSameFree(m, z);
    forall d1: nat, v1: nat | IsDir(m, d1) && UserPage(v1)
      ensures SameView(m, z, d1, v1)
    {
      assert SameView(m, q, d1, v1) && SameView(q, r, d1, v1) && SameView(r, z, d1, v1);
    }
  }

  /** A free page is nobody's directory. */
  lemma NoneOwned(m: Mem, d: nat)
    requires WF(m) && d < PHY_PAGE && m.use[d] == Free
    ensures forall p :: 0 <= p < PHY_PAGE ==> !OwnedBy(m.use[p], d)
  {
    forall p | 0 <= p < PHY_PAGE
      ensures !OwnedBy(m.use[p], d)
    {
      assert TableOk(m, p) && FrameOk(m, p);
    }
  }

  lemma AllocKernel(m: Mem)
    requires WF(m) && m.free != [] && m.free[0] < PHY_PAGE
    ensures forall p :: 0 <= p < PHY_PAGE && p != m.free[0] ==> AllocDir(m).pages[p] == m.pages[p]
  {
  }

  // ---------------------------------------------------------------- what a process sees, whatever others do

  /** Operations that are not made on address space d. */
  predicate Apart(op: Op, d: nat) {
    match op
    case Map(x, _, _, _) => x != d
    case Unmap(x, _, _) => x != d
    case Write(x, _, _, _) => x != d
    case Copy(_, x) => x != d
    case Destroy(x) => x != d
    case _ => true
  }

  lemma HasSize(m: Mem)
    requires WF(m)
    ensures Sized(m)
  {
  }

  /** A page that is the kernel's, or free, is not seen in any address space. */
  lemma KernelUnseen(m: Mem, r: Mem, p: nat, d: nat, v: nat)
    requires WF(m) && WF(r) && IsDir(m, d) && UserPage(v) && p < PHY_PAGE && (m.use[p] == Free || m.use[p] == Kernel)
    requires r.use == m.use[p := r.use[p]] && forall q :: 0 <= q < PHY_PAGE && q != p ==> r.pages[q] == m.pages[q]
    ensures SameView(m, r, d, v)
  {
    hide WF, Make, OrFlags, Or3, Covers, And3, Flags, Present, PageOf;
    HasSize(r);
    ViewPlain(m, d, v);
    UserIndex(v);
    TablesApart(m, d, v, p);
    assert IsDir(r, d) && r.pages[d] == m.pages[d] && Pte(r, d, v) == Pte(m, d, v);
  }

  /** The directory, the table and the frame that show page v are other pages than p. */
  lemma TablesApart(m: Mem, d: nat, v: nat, p: nat)
    requires WF(m) && IsDir(m, d) && UserPage(v) && p < PHY_PAGE && (m.use[p] == Free || m.use[p] == Kernel)
    ensures d != p && (Present(m.pages[d][v / NR]) ==> PageOf(m.pages[d][v / NR]) != p)
    ensures Present(Pte(m, d, v)) ==> PageOf(Pte(m, d, v)) != p
  {
    hide WF, ViewOf, Make, OrFlags, Or3, Covers, And3, Flags;
    ViewPlain(m, d, v);
  }

  lemma OpApart(m: Mem, op: Op, d: nat, v: nat)
    requires WF(m) && Ready(m, op) && Apart(op, d) && IsDir(m, d) && UserPage(v)
    ensures SameView(m, Apply(m, op), d, v)
  {
    hide WF, ViewOf, CopySpace, MapRange, UnmapRange, Store, AllocDir, Teardown, CopyNeeds, RangeNeeds, Bare;
    match op
    case Create => AllocDirMakes(m);
    case Map(x, w, n, prot) => MapRangeMaps(m, x, w, n, prot);
    case Unmap(x, w, n) => UnmapRangeLocal(m, x, w, n);
    case Write(x, w, k, y) => StoreIsPrivate(m, x, w, k, y);
    case Copy(src, x) => ForkCopies(m, src, x, v);
    case Destroy(x) => TeardownRemoves(m, x);
    case TakeStack =>
      StackKeeps(m, op);
      TakenStack(m);
      KernelUnseen(m, Apply(m, op), m.free[0], d, v);
    case GiveStack(p) =>
      StackKeeps(m, op);
      KernelUnseen(m, Apply(m, op), p, d, v);
  }

  lemma TakenStack(m: Mem)
    requires WF(m) && m.free != []
    ensures Heap(m.free[0]) && m.use[m.free[0]] == Free
  {
    hide Linked;
  }

  /** A page after the stores that its own process makes to it. */
  function Stored(a: View, ops: seq<Op>, d: nat, v: nat): View
    decreases |ops|
  {
    if ops == [] then a
    else
      var op := ops[0];
      var b := if op.Write? && op.d == d && op.v == v && a.Mapped? && op.k < |a.content| then
                 a.(content := a.content[op.k := op.w])
               else a;
      Stored(b, ops[1..], d, v)
  }

  /** While others do whatever they do, what a process sees changes by its own stores alone. */
  lemma {:induction false} OwnStores(m: Mem, ops: seq<Op>, r: Mem, d: nat, v: nat)
    requires WF(m) && IsDir(m, d) && UserPage(v) && Runs(m, ops, r)
    requires forall i :: 0 <= i < |ops| ==> Apart(ops[i], d) || ops[i].Write?
    ensures WF(r) && IsDir(r, d) && ViewOf(r, d, v) == Stored(ViewOf(m, d, v), ops, d, v)
    decreases |ops|
  {
    hide WF, Apply, Ready, ViewOf, Apart;
    if ops != [] {
      var q := Apply(m, ops[0]);
      ApplyKeeps(m, ops[0]);
      OneStore(m, ops[0], d, v);
      assert Runs(q, ops[1..], r);
      OwnStores(q, ops[1..], r, d, v);
    }
  }

  lemma OneStore(m: Mem, op: Op, d: nat, v: nat)
    requires WF(m) && Ready(m, op) && IsDir(m, d) && UserPage(v) && (Apart(op, d) || op.Write?)
    ensures IsDir(Apply(m, op), d)
    ensures ViewOf(Apply(m, op), d, v) ==
              var a := ViewOf(m, d, v);
              if op.Write? && op.d == d && op.v == v && a.Mapped? && op.k < |a.content| then
                a.(content := a.content[op.k := op.w])
              else a
  {
    hide WF, ViewOf, Store;
    if Apart(op, d) {
      OpApart(m, op, d, v);
    } else {
      StoreIsPrivate(m, d, op.v, op.k, op.w);
      assert op.v != v ==> SameView(m, Apply(m, op), d, v);
    }
  }

  /** After a fork, over any run of stores by parent and child and of anything that others do: both go on from the page
      that the parent had, and each sees its own stores to it and none of the other's. */
  lemma RunIsolates(m: Mem, src: nat, dst: nat, ops: seq<Op>, z: Mem, v: nat)
    requires WF(m) && Ready(m, Copy(src, dst)) && Runs(CopySpace(m, src, dst), ops, z) && PHY_PAGE <= v < USR_PAGE
    requires forall i :: 0 <= i < |ops| ==> (Apart(ops[i], src) && Apart(ops[i], dst)) || ops[i].Write?
    ensures WF(z) && IsDir(z, src) && IsDir(z, dst)
    ensures ViewOf(z, src, v) == Stored(ViewOf(m, src, v), ops, src, v)
    ensures ViewOf(z, dst, v) == Stored(ViewOf(m, src, v), ops, dst, v)
  {
    hide WF, ViewOf, CopySpace, CopyNeeds, Bare, Runs, Apart;
    ForkCopies(m, src, dst, v);
    var r := CopySpace(m, src, dst);
    assert SameView(m, r, src, v);
    OwnStores(r, ops, z, src, v);
    OwnStores(r, ops, z, dst, v);
  }
}
