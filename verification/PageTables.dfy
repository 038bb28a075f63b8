/** Physical pages and two-level page tables (kernel/src/vme.c over kernel/include/x86/memory.h) as values: what each
    routine does to memory, and the invariant that every page of the kernel heap has exactly one use. */
module PageTables {

  const KER_PAGE := 0x200     // KER_MEM in pages: the first page of the kernel heap
  const PHY_PAGE := 0x8000    // PHY_MEM in pages
  const USR_PAGE := 0xc0000   // USR_MEM in pages
  const NR := 1024            // entries of a directory or a table, words of a page
  const KERNEL_DIRS := 32     // PHY_MEM / PT_SIZE

  // ---------------------------------------------------------------- entries

  /** The bit-wise or, and and, of three flag bits. */
  function Or3(a: nat, b: nat): (r: nat)
    requires a < 8 && b < 8
    ensures r < 8 && (r % 2 == 1 <==> a % 2 == 1 || b % 2 == 1)
  {
    (if a % 2 == 1 || b % 2 == 1 then 1 else 0)
    + (if a / 2 % 2 == 1 || b / 2 % 2 == 1 then 2 else 0)
    + (if a / 4 == 1 || b / 4 == 1 then 4 else 0)
  }

  function And3(a: nat, b: nat): (r: nat)
    requires a < 8 && b < 8
    ensures r < 8
  {
    (if a % 2 == 1 && b % 2 == 1 then 1 else 0)
    + (if a / 2 % 2 == 1 && b / 2 % 2 == 1 then 2 else 0)
    + (if a / 4 == 1 && b / 4 == 1 then 4 else 0)
  }

  /** Every flag of b is one of a. */
  predicate Covers(a: nat, b: nat)
    requires a < 8 && b < 8
  {
    (b % 2 == 1 ==> a % 2 == 1) && (b / 2 % 2 == 1 ==> a / 2 % 2 == 1) && (b / 4 == 1 ==> a / 4 == 1)
  }

  lemma OrCovers(a: nat, b: nat, c: nat)
    requires a < 8 && b < 8 && c < 8
    ensures Covers(Or3(a, b), b) && Covers(Or3(a, b), a) && (Covers(a, c) ==> Covers(Or3(a, b), c))
    ensures Or3(a, a) == a && (Covers(a, b) ==> And3(a, b) == b) && (Covers(a, b) && Covers(a, c) ==> Covers(a, Or3(b, c)))
  {
  }

  lemma Parts(q: nat, r: nat)
    requires r < 4096
    ensures (q * 4096 + r) / 4096 == q && (q * 4096 + r) % 8 == r % 8 && (q * 4096 + r) % 2 == r % 2
  {
    assert q * 4096 + r == 8 * (512 * q) + r && q * 4096 + r == 2 * (2048 * q) + r;
    Mod(512 * q, r, 8);
    Mod(2048 * q, r, 2);
  }

  lemma {:induction false} Mod(k: nat, r: nat, n: nat)
    requires n == 8 || n == 2
    ensures (n * k + r) % n == r % n
  {
    if k > 0 {
      Mod(k - 1, r, n);
      assert n * k + r == n * (k - 1) + r + n;
    }
  }

  predicate Present(e: nat) {
    e % 2 == 1
  }

  function PageOf(e: nat): nat {
    e / 4096
  }

  function Flags(e: nat): (f: nat)
    ensures f < 8 && (Present(e) <==> f % 2 == 1)
  {
    e % 8
  }

  /** MAKE_PTE and MAKE_PDE. */
  function Make(page: nat, prot: nat): (e: nat)
    requires prot < 8
    ensures Present(e) && PageOf(e) == page && Flags(e) == Or3(prot, 1)
  {
    Parts(page, Or3(prot, 1));
    page * 4096 + Or3(prot, 1)
  }

  /** `e |= prot` */
  function OrFlags(e: nat, prot: nat): (r: nat)
    requires prot < 8
    ensures PageOf(r) == PageOf(e) && Flags(r) == Or3(Flags(e), prot) && (Present(e) ==> Present(r))
  {
    var (q, f) := (e / 4096, e % 4096);
    assert f % 8 == e % 8;
    Parts(q, f - f % 8 + Or3(f % 8, prot));
    e - e % 8 + Or3(e % 8, prot)
  }

  /** `e.present = 0` */
  function ClearPresent(e: nat): (r: nat)
    ensures !Present(r) && PageOf(r) == PageOf(e)
  {
    var (q, f) := (e / 4096, e % 4096);
    assert f % 2 == e % 2;
    Parts(q, f - f % 2);
    e - e % 2
  }

  lemma ZeroAbsent()
    ensures !Present(0)
  {
  }

  // ---------------------------------------------------------------- memory

  type Page = p: seq<nat> | |p| == NR witness Zeros()

  function Zeros(): (z: seq<nat>)
    ensures |z| == NR && forall i :: 0 <= i < NR ==> z[i] == 0
  {
    seq(NR, _ => 0)
  }

  /** What a page of the kernel heap is used for. Pages outside the heap count as the kernel's. */
  datatype Use =
    | Free
    | Kernel                                // held by the kernel itself, as a kernel stack is
    | Dir
    | Table(dir: nat, i: nat)               // the table that entry i of directory dir points to
    | Frame(dir: nat, i: nat, j: nat)       // the page mapped by entry j of that table

  /** Memory: the pages, the head of the free list (an address, 0 for none), and, for the proofs, the use of each page
      and the pages of the free list in order. `kpt` is where the kernel's own tables begin. */
  datatype Mem = Mem(kpt: nat, pages: seq<Page>, head: nat, use: seq<Use>, free: seq<nat>)

  predicate Sized(m: Mem) {
    |m.pages| == PHY_PAGE && |m.use| == PHY_PAGE
  }

  predicate Heap(p: nat) {
    KER_PAGE <= p < PHY_PAGE
  }

  /** What word 0 of the i-th free page holds: the address of the next one. */
  function Link(free: seq<nat>, i: nat): nat {
    if i < |free| then free[i] * 4096 else 0
  }

  ghost predicate FreeOk(m: Mem)
    requires Sized(m)
  {
    && m.head == Link(m.free, 0)
    && (forall i :: 0 <= i < |m.free| ==> Heap(m.free[i]) && m.use[m.free[i]] == Free)
    && (forall i :: 0 <= i < |m.free| ==> m.pages[m.free[i]][0] == Link(m.free, i + 1))
    && (forall i, j :: 0 <= i < j < |m.free| ==> m.free[i] != m.free[j])
    && (forall p :: 0 <= p < PHY_PAGE && m.use[p] == Free ==> p in m.free)
  }

  /** A directory: the kernel's tables first, then tables of its own. */
  ghost predicate DirOk(m: Mem, d: nat)
    requires Sized(m) && d < PHY_PAGE
  {
    m.use[d] == Dir ==>
      && Heap(d)
      && (forall i :: 0 <= i < KERNEL_DIRS ==> m.pages[d][i] == Make(m.kpt + i, 3))
      && (forall i :: KERNEL_DIRS <= i < NR && Present(m.pages[d][i]) ==>
            Heap(PageOf(m.pages[d][i])) && m.use[PageOf(m.pages[d][i])] == Table(d, i))
  }

  ghost predicate HasTable(m: Mem, d: nat, i: nat, t: nat)
    requires Sized(m)
  {
    && Heap(d) && m.use[d] == Dir && KERNEL_DIRS <= i < NR
    && Present(m.pages[d][i]) && PageOf(m.pages[d][i]) == t && Heap(t) && m.use[t] == Table(d, i)
  }

  /** A table: the one its directory points to, its pages its own, its flags no wider than the directory entry's. */
  ghost predicate TableOk(m: Mem, t: nat)
    requires Sized(m) && t < PHY_PAGE
  {
    m.use[t].Table? ==>
      var d, i := m.use[t].dir, m.use[t].i;
      && HasTable(m, d, i, t)
      && (forall j :: 0 <= j < NR && Present(m.pages[t][j]) ==>
            && Heap(PageOf(m.pages[t][j])) && m.use[PageOf(m.pages[t][j])] == Frame(d, i, j)
            && Covers(Flags(m.pages[d][i]), Flags(m.pages[t][j])))
  }

  ghost predicate FrameOk(m: Mem, f: nat)
    requires Sized(m) && f < PHY_PAGE
  {
    m.use[f].Frame? ==>
      var d, i, j := m.use[f].dir, m.use[f].i, m.use[f].j;
      && Heap(f) && Heap(d) && KERNEL_DIRS <= i < NR && j < NR
      && var t := PageOf(m.pages[d][i]);
         HasTable(m, d, i, t) && Present(m.pages[t][j]) && PageOf(m.pages[t][j]) == f
  }

  ghost predicate Linked(m: Mem)
    requires Sized(m)
  {
    forall p :: 0 <= p < PHY_PAGE ==> DirOk(m, p) && TableOk(m, p) && FrameOk(m, p)
  }

  /** The heap is shared out: every page is free, held by the kernel, or in one place of one address space. */
  ghost predicate WF(m: Mem) {
    Sized(m) && FreeOk(m) && Linked(m)
  }

  // ---------------------------------------------------------------- the routines

  /** kalloc */
  function Take(m: Mem, use: Use): (r: Mem)
    requires Sized(m) && m.free != [] && m.free[0] < PHY_PAGE
    ensures Sized(r)
  {
    var p := m.free[0];
    m.(pages := m.pages[p := Zeros()], head := m.pages[p][0], use := m.use[p := use], free := m.free[1..])
  }

  /** kfree */
  function Give(m: Mem, p: nat): (r: Mem)
    requires Sized(m) && p < PHY_PAGE
    ensures Sized(r)
  {
    m.(pages := m.pages[p := Zeros()[0 := m.head]], head := p * 4096, use := m.use[p := Free], free := [p] + m.free)
  }

  function SetWord(m: Mem, p: nat, k: nat, w: nat): (r: Mem)
    requires Sized(m) && p < PHY_PAGE && k < NR
    ensures Sized(r)
  {
    m.(pages := m.pages[p := m.pages[p][k := w]])
  }

  lemma TakeFreeOk(m: Mem, use: Use)
    requires Sized(m) && FreeOk(m) && m.free != [] && use != Free
    ensures FreeOk(Take(m, use))
  {
    var r := Take(m, use);
    forall i | 0 <= i < |r.free|
      ensures r.free[i] != m.free[0] && r.free[i] == m.free[i + 1]
    {
    }
    forall p | 0 <= p < PHY_PAGE && r.use[p] == Free
      ensures p in r.free
    {
      assert p in m.free;
    }
  }

  lemma GiveFreeOk(m: Mem, p: nat)
    requires Sized(m) && FreeOk(m) && Heap(p) && m.use[p] != Free
    ensures FreeOk(Give(m, p))
  {
    var r := Give(m, p);
    assert forall i :: 0 <= i < |m.free| ==> r.free[i + 1] == m.free[i];
    forall i | 0 <= i < |r.free|
      ensures Heap(r.free[i]) && r.use[r.free[i]] == Free && r.pages[r.free[i]][0] == Link(r.free, i + 1)
    {
      if i > 0 {
        assert m.pages[m.free[i - 1]][0] == Link(m.free, i);
      }
    }
  }

  // ---------------------------------------------------------------- walking and mapping

  ghost predicate IsDir(m: Mem, d: nat) {
    Sized(m) && d < PHY_PAGE && m.use[d] == Dir
  }

  /** vm_walkpte, which makes a table where there is none if asked to map. */
  function WalkPte(m: Mem, d: nat, i: nat, prot: nat): (r: Mem)
    requires Sized(m) && d < PHY_PAGE && i < NR && prot < 8
    requires !Present(m.pages[d][i]) && prot % 2 == 1 ==> m.free != [] && m.free[0] < PHY_PAGE
    ensures Sized(r)
  {
    var e := m.pages[d][i];
    if !Present(e) && prot % 2 == 1 then SetWord(Take(m, Table(d, i)), d, i, Make(m.free[0], prot))
    else if !Present(e) || prot == 0 then m
    else SetWord(m, d, i, OrFlags(e, prot))
  }

  /** A free page t becomes the table of entry i of directory d. */
  ghost predicate AddsTable(m: Mem, r: Mem, d: nat, i: nat, t: nat, prot: nat) {
    && Sized(m) && Sized(r) && r.kpt == m.kpt && d < PHY_PAGE && KERNEL_DIRS <= i < NR && prot < 8 && prot % 2 == 1
    && Heap(t) && t != d && m.use[t] == Free && m.use[d] == Dir && !Present(m.pages[d][i])
    && r.use == m.use[t := Table(d, i)]
    && r.pages[t] == Zeros() && r.pages[d] == m.pages[d][i := Make(t, prot)]
    && forall p :: 0 <= p < PHY_PAGE && p != t && p != d ==> r.pages[p] == m.pages[p]
  }

  lemma AddsTableLinked(m: Mem, r: Mem, d: nat, i: nat, t: nat, prot: nat)
    requires AddsTable(m, r, d, i, t, prot) && Linked(m)
    ensures Linked(r) && HasTable(r, d, i, t)
  {
    hide OrFlags, Or3, Covers, Present, PageOf;
    ZeroAbsent();
    assert DirOk(m, d);
    forall p | 0 <= p < PHY_PAGE
      ensures DirOk(r, p)
    {
      assert DirOk(m, p);
    }
    forall p | 0 <= p < PHY_PAGE
      ensures TableOk(r, p)
    {
      assert TableOk(m, p);
    }
    forall p | 0 <= p < PHY_PAGE
      ensures FrameOk(r, p)
    {
      assert FrameOk(m, p);
    }
  }

  lemma NewTableKeeps(m: Mem, d: nat, i: nat, prot: nat)
    requires WF(m) && IsDir(m, d) && KERNEL_DIRS <= i < NR && prot < 8 && prot % 2 == 1
    requires !Present(m.pages[d][i]) && m.free != []
    ensures m.free[0] < PHY_PAGE && WF(WalkPte(m, d, i, prot))
    ensures var r := WalkPte(m, d, i, prot); HasTable(r, d, i, m.free[0]) && Covers(Flags(r.pages[d][i]), prot)
  {
    var t := m.free[0];
    var r := WalkPte(m, d, i, prot);
    TakeFreeOk(m, Table(d, i));
    OrCovers(prot, 1, prot);
    AddsTableLinked(m, r, d, i, t, prot);
  }

  /** The flags of entry i of directory d are widened. */
  ghost predicate Widens(m: Mem, r: Mem, d: nat, i: nat, prot: nat) {
    && Sized(m) && Sized(r) && r.kpt == m.kpt && d < PHY_PAGE && KERNEL_DIRS <= i < NR && prot < 8
    && m.use[d] == Dir && Present(m.pages[d][i]) && r.use == m.use
    && r.pages[d] == m.pages[d][i := OrFlags(m.pages[d][i], prot)]
    && forall p :: 0 <= p < PHY_PAGE && p != d ==> r.pages[p] == m.pages[p]
  }

  lemma WidensLinked(m: Mem, r: Mem, d: nat, i: nat, prot: nat)
    requires Widens(m, r, d, i, prot) && Linked(m)
    ensures Linked(r) && HasTable(r, d, i, PageOf(m.pages[d][i])) && PageOf(r.pages[d][i]) != d
  {
    hide Make, Or3, Covers, Present, PageOf;
    var e := m.pages[d][i];
    assert DirOk(m, d);
    forall p | 0 <= p < PHY_PAGE
      ensures DirOk(r, p)
    {
      assert DirOk(m, p);
    }
    forall p | 0 <= p < PHY_PAGE
      ensures TableOk(r, p)
    {
      assert TableOk(m, p);
      if m.use[p] == Table(d, i) {
        forall j | 0 <= j < NR && Present(m.pages[p][j])
          ensures Covers(Flags(r.pages[d][i]), Flags(m.pages[p][j]))
        {
          OrCovers(Flags(e), prot, Flags(m.pages[p][j]));
        }
      }
    }
    forall p | 0 <= p < PHY_PAGE
      ensures FrameOk(r, p)
    {
      assert FrameOk(m, p);
    }
  }

  lemma WidenKeeps(m: Mem, d: nat, i: nat, prot: nat)
    requires WF(m) && IsDir(m, d) && KERNEL_DIRS <= i < NR && 0 < prot < 8 && Present(m.pages[d][i])
    ensures WF(WalkPte(m, d, i, prot))
    ensures var r := WalkPte(m, d, i, prot);
            HasTable(r, d, i, PageOf(m.pages[d][i])) && Covers(Flags(r.pages[d][i]), prot) && r.free == m.free
  {
    var e := m.pages[d][i];
    var r := WalkPte(m, d, i, prot);
    OrCovers(Flags(e), prot, prot);
    WidensLinked(m, r, d, i, prot);
  }

  // ---------------------------------------------------------------- mapping one page

  /** The body of vm_map's loop once the table is there. */
  function SetPte(m: Mem, d: nat, i: nat, j: nat, prot: nat): (r: Mem)
    requires Sized(m) && d < PHY_PAGE && i < NR && j < NR && prot < 8 && PageOf(m.pages[d][i]) < PHY_PAGE
    requires !Present(m.pages[PageOf(m.pages[d][i])][j]) ==> m.free != [] && m.free[0] < PHY_PAGE
    ensures Sized(r)
  {
    var t := PageOf(m.pages[d][i]);
    var e := m.pages[t][j];
    if !Present(e) then SetWord(Take(m, Frame(d, i, j)), t, j, Make(m.free[0], prot))
    else SetWord(m, t, j, OrFlags(e, prot))
  }

  /** A free page f becomes the page mapped by entry j of table t. */
  ghost predicate AddsFrame(m: Mem, r: Mem, d: nat, i: nat, j: nat, t: nat, f: nat, prot: nat) {
    && Sized(m) && Sized(r) && r.kpt == m.kpt && HasTable(m, d, i, t) && j < NR && prot < 8 && prot % 2 == 1
    && Covers(Flags(m.pages[d][i]), prot)
    && Heap(f) && f != t && m.use[f] == Free && !Present(m.pages[t][j])
    && r.use == m.use[f := Frame(d, i, j)]
    && r.pages[f] == Zeros() && r.pages[t] == m.pages[t][j := Make(f, prot)]
    && forall p :: 0 <= p < PHY_PAGE && p != t && p != f ==> r.pages[p] == m.pages[p]
  }

  lemma AddsFrameLinked(m: Mem, r: Mem, d: nat, i: nat, j: nat, t: nat, f: nat, prot: nat)
    requires AddsFrame(m, r, d, i, j, t, f, prot) && Linked(m)
    ensures Linked(r)
  {
    hide OrFlags, Or3, Covers, Present, PageOf;
    assert TableOk(m, t);
    MakeCovered(f, m.pages[d][i], prot);
    forall p | 0 <= p < PHY_PAGE
      ensures DirOk(r, p)
    {
      assert DirOk(m, p);
    }
    forall p | 0 <= p < PHY_PAGE
      ensures TableOk(r, p)
    {
      assert TableOk(m, p);
    }
    forall p | 0 <= p < PHY_PAGE
      ensures FrameOk(r, p)
    {
      assert FrameOk(m, p);
    }
  }

  lemma MakeCovered(f: nat, e: nat, prot: nat)
    requires prot < 8 && prot % 2 == 1
    ensures Covers(Flags(e), prot) ==> Covers(Flags(e), Flags(Make(f, prot)))
    ensures Flags(Make(f, prot)) == prot
  {
  }

  /** The flags of entry j of table t are widened. */
  ghost predicate WidensPte(m: Mem, r: Mem, d: nat, i: nat, j: nat, t: nat, prot: nat) {
    && Sized(m) && Sized(r) && r.kpt == m.kpt && HasTable(m, d, i, t) && j < NR && prot < 8
    && Covers(Flags(m.pages[d][i]), prot) && Present(m.pages[t][j]) && r.use == m.use
    && r.pages[t] == m.pages[t][j := OrFlags(m.pages[t][j], prot)]
    && forall p :: 0 <= p < PHY_PAGE && p != t ==> r.pages[p] == m.pages[p]
  }

  lemma WidensPteLinked(m: Mem, r: Mem, d: nat, i: nat, j: nat, t: nat, prot: nat)
    requires WidensPte(m, r, d, i, j, t, prot) && Linked(m)
    ensures Linked(r)
  {
    hide Make, Or3, Covers, Present, PageOf;
    assert TableOk(m, t);
    OrCovers(Flags(m.pages[d][i]), Flags(m.pages[t][j]), prot);
    forall p | 0 <= p < PHY_PAGE
      ensures DirOk(r, p)
    {
      assert DirOk(m, p);
    }
    forall p | 0 <= p < PHY_PAGE
      ensures TableOk(r, p)
    {
      assert TableOk(m, p);
    }
    forall p | 0 <= p < PHY_PAGE
      ensures FrameOk(r, p)
    {
      assert FrameOk(m, p);
    }
  }
}
