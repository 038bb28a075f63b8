/** The directory tree: which entry links to which inode, and what creating and removing an entry does to it. */
module Tree {
  import opened Bytes
  import opened BlockDevice
  import opened FsLayout
  import opened FileSystem
  import opened Directory

  // For each linked inode, the directory and the entry that name it.
  type Links = map<nat, (nat, nat)>

  /** Inodes that are removed but still open. */
  ghost function Dead(table: Table): set<nat> {
    set s | 0 <= s < |table| && table[s].ref > 0 && table[s].del :: table[s].no
  }

  ghost predicate Alive(disk: Disk, dead: set<nat>, i: nat) {
    0 < i < INUM && DinodeAt(disk, i).typ != TYPE_NONE && i !in dead
  }

  ghost predicate LiveDir(disk: Disk, dead: set<nat>, d: nat) {
    Alive(disk, dead, d) && DinodeAt(disk, d).typ == TYPE_DIR
  }

  ghost function ParentOf(d: nat, links: Links): nat {
    if d in links then links[d].0 else ROOT
  }

  /** A directory file: `.` and `..` first, and every other entry linked as `links` says. */
  ghost predicate DirOk(c: seq<byte>, d: nat, links: Links) {
    && WellDir(c) && Len(c) >= 2
    && BindsAt(c, 0, Dot) && EntIno(c, 0) == d
    && BindsAt(c, 1, DotDot) && EntIno(c, 1) == ParentOf(d, links)
    && (forall k :: 2 <= k < Len(c) && EntIno(c, k) != 0 ==> EntIno(c, k) in links && links[EntIno(c, k)] == (d, k))
  }

  /** `t` is alive and entry `links[t]` of a live directory names it. */
  ghost predicate LinkOk(disk: Disk, dead: set<nat>, links: Links, t: nat)
    requires t in links
  {
    var (d, k) := links[t];
    && Alive(disk, dead, t)
    && LiveDir(disk, dead, d)
    && 2 <= k < Len(Contents(disk, d)) && EntIno(Contents(disk, d), k) == t
  }

  /** Every inode alive, the root aside, is named by exactly one entry of one live directory, and every entry
      of a live directory names an inode alive. */
  ghost predicate TreeOk(disk: Disk, dead: set<nat>, links: Links) {
    && LiveDir(disk, dead, ROOT) && ROOT !in links
    && (forall t :: t in links ==> LinkOk(disk, dead, links, t))
    && (forall i :: Alive(disk, dead, i) && i != ROOT ==> i in links)
    && (forall d :: LiveDir(disk, dead, d) ==> DirOk(Contents(disk, d), d, links))
  }

  /** Every entry of a live directory names an inode alive. */
  lemma EntryAlive(disk: Disk, dead: set<nat>, links: Links, d: nat, k: nat)
    requires TreeOk(disk, dead, links) && LiveDir(disk, dead, d)
    requires k < Len(Contents(disk, d)) && EntIno(Contents(disk, d), k) != 0
    ensures Alive(disk, dead, EntIno(Contents(disk, d), k))
  {
    hide DinodeAt, Contents, EntIno, EntName;
    var c := Contents(disk, d);
    assert DirOk(c, d, links);
    if k >= 2 {
      assert LinkOk(disk, dead, links, EntIno(c, k));
    } else if k == 1 && d in links {
      assert LinkOk(disk, dead, links, d);
    }
  }

  /** What stays of the tree where a file is untouched. */
  lemma SameInode(disk: Disk, disk2: Disk, dead: set<nat>, dead2: set<nat>, i: nat)
    requires i < INUM && SameFile(disk, disk2, i) && (i in dead <==> i in dead2) && Sized(disk, i)
    ensures Alive(disk2, dead2, i) <==> Alive(disk, dead, i)
    ensures LiveDir(disk2, dead2, i) <==> LiveDir(disk, dead, i)
    ensures Contents(disk2, i) == Contents(disk, i)
  {
    hide DinodeAt, PosBlk, Contents, Sized;
    SameFileSame(disk, disk2, i);
  }

  /** Only inode i changed, which is no live directory, and it is as alive as it was. */
  ghost predicate Aside(disk: Disk, disk2: Disk, dead: set<nat>, dead2: set<nat>, i: nat) {
    && i < INUM && (forall j :: 0 <= j < INUM && j != i ==> SameFile(disk, disk2, j))
    && (forall j: nat :: j != i ==> (j in dead <==> j in dead2))
    && !LiveDir(disk, dead, i) && !LiveDir(disk2, dead2, i)
    && (Alive(disk, dead, i) <==> Alive(disk2, dead2, i))
  }

  lemma AsideKeepsTree(disk: Disk, disk2: Disk, dead: set<nat>, dead2: set<nat>, links: Links, i: nat)
    requires TreeOk(disk, dead, links) && (forall j :: 0 <= j < INUM ==> Sized(disk, j)) && Aside(disk, disk2, dead, dead2, i)
    ensures TreeOk(disk2, dead2, links)
  {
    hide DinodeAt, Contents, EntIno, EntName, Sized, SameFile, DirOk;
    forall j | 0 < j < INUM && j != i
      ensures Alive(disk2, dead2, j) <==> Alive(disk, dead, j)
      ensures LiveDir(disk2, dead2, j) <==> LiveDir(disk, dead, j)
      ensures Contents(disk2, j) == Contents(disk, j)
    {
      SameInode(disk, disk2, dead, dead2, j);
    }
    forall t | t in links
      ensures LinkOk(disk2, dead2, links, t)
    {
      assert LinkOk(disk, dead, links, t);
    }
    forall d | LiveDir(disk2, dead2, d)
      ensures DirOk(Contents(disk2, d), d, links)
    {
      assert LiveDir(disk, dead, d);
    }
  }

  /** The effect of creating inode `t` under entry `k` of directory `d`. */
  ghost predicate Created(disk: Disk, disk2: Disk, d: nat, k: nat, name: Name, t: nat, typ: u32)
    requires d < INUM && t < INUM
  {
    var c, c2 := Contents(disk, d), Contents(disk2, d);
    && DinodeAt(disk, t).typ == TYPE_NONE && DinodeAt(disk2, t).typ == typ
    && SameHeader(DinodeAt(disk, d), DinodeAt(disk2, d))
    && (forall j :: 0 <= j < INUM && j != d && j != t ==> SameFile(disk, disk2, j))
    && Len(c2) == (if k == Len(c) then Len(c) + 1 else Len(c)) && k <= Len(c)
    && (k < Len(c) ==> EntIno(c, k) == 0)
    && (forall j :: 0 <= j < Len(c2) && j != k ==> EntIno(c2, j) == EntIno(c, j) && EntName(c2, j) == EntName(c, j))
    && EntIno(c2, k) == t && EntName(c2, k) == name
    && (if typ == TYPE_DIR then NewDir(Contents(disk2, t), t, d) else DinodeAt(disk2, t) == ZeroDinode.(typ := typ))
  }

  ghost predicate NewDir(c: seq<byte>, t: nat, d: nat) {
    && WellDir(c) && Len(c) == 2
    && BindsAt(c, 0, Dot) && EntIno(c, 0) == t
    && BindsAt(c, 1, DotDot) && EntIno(c, 1) == d
  }

  lemma NewDirMap(c: seq<byte>, t: nat, d: nat)
    requires NewDir(c, t, d)
    ensures DirMap(c) == map[Dot := t as u32, DotDot := d as u32]
  {
    hide EntIno, EntName, DirMap;
    LookupIsMap(c, 0, Dot);
    LookupIsMap(c, 1, DotDot);
    forall n | n in DirMap(c)
      ensures n == Dot || n == DotDot
    {
      LookupIsMap(c, 0, n);
    }
  }

  lemma NewDirOk(c: seq<byte>, t: nat, d: nat, k: nat, links: Links)
    requires NewDir(c, t, d) && t in links && links[t] == (d, k)
    ensures DirOk(c, t, links)
  {
    hide EntIno, EntName, WellDir;
  }

  /** The directory that got the new entry k. */
  lemma OldDirOk(c: seq<byte>, c2: seq<byte>, d: nat, links: Links, k: nat, t: nat)
    requires DirOk(c, d, links) && WellDir(c2) && 2 <= k <= Len(c) && t !in links && t != d
    requires Len(c2) == (if k == Len(c) then Len(c) + 1 else Len(c))
    requires forall j :: 0 <= j < Len(c2) && j != k ==> EntIno(c2, j) == EntIno(c, j) && EntName(c2, j) == EntName(c, j)
    requires EntIno(c2, k) == t
    ensures DirOk(c2, d, links[t := (d, k)])
  {
    hide EntIno, EntName, WellDir;
  }

  lemma CreateKeepsTree(disk: Disk, disk2: Disk, dead: set<nat>, links: Links, d: nat, k: nat, name: Name, t: nat,
          typ: u32)
    requires TreeOk(disk, dead, links) && forall i :: 0 <= i < INUM ==> Sized(disk, i)
    requires LiveDir(disk, dead, d) && 0 < t < INUM && t !in dead && typ != TYPE_NONE
    requires IsName(name) && name !in DirMap(Contents(disk, d))
    requires WellDir(Contents(disk2, d))
    requires Created(disk, disk2, d, k, name, t, typ)
    ensures TreeOk(disk2, dead, links[t := (d, k)])
  {
    hide DinodeAt, Contents, EntIno, EntName, Sized, SameFile, DirMap, IsName, NewDir;
    var links2 := links[t := (d, k)];
    var c, c2 := Contents(disk, d), Contents(disk2, d);
    assert t in links ==> LinkOk(disk, dead, links, t);
    assert t != d && t != ROOT;
    assert DirOk(c, d, links);
    assert LiveDir(disk2, dead, d);
    forall i | 0 < i < INUM && i != d && i != t
      ensures Alive(disk2, dead, i) <==> Alive(disk, dead, i)
      ensures LiveDir(disk2, dead, i) <==> LiveDir(disk, dead, i)
      ensures Contents(disk2, i) == Contents(disk, i)
    {
      SameInode(disk, disk2, dead, dead, i);
    }
    assert k >= 2;
    forall u | u in links2
      ensures LinkOk(disk2, dead, links2, u)
    {
      if u != t {
        assert LinkOk(disk, dead, links, u);
      }
    }
    forall e | LiveDir(disk2, dead, e)
      ensures DirOk(Contents(disk2, e), e, links2)
    {
      if e == t {
        NewDirOk(Contents(disk2, t), t, d, k, links2);
      } else if e == d {
        OldDirOk(c, c2, d, links, k, t);
      } else {
        assert DirOk(Contents(disk, e), e, links);
      }
    }
  }

  /** The effect of removing inode `t`, entry `k` of directory `d`. */
  ghost predicate Removed(disk: Disk, disk2: Disk, dead: set<nat>, dead2: set<nat>, d: nat, k: nat, t: nat)
    requires d < INUM && t < INUM
  {
    var c, c2 := Contents(disk, d), Contents(disk2, d);
    && SameHeader(DinodeAt(disk, d), DinodeAt(disk2, d))
    && (forall j :: 0 <= j < INUM && j != d && j != t ==> SameFile(disk, disk2, j))
    && (forall i :: i in dead2 <==> i in dead || (i == t && DinodeAt(disk2, t).typ != TYPE_NONE))
    && k < Len(c) == Len(c2)
    && EntIno(c, k) == t && EntIno(c2, k) == 0
    && (forall j :: 0 <= j < Len(c2) && j != k ==> EntIno(c2, j) == EntIno(c, j) && EntName(c2, j) == EntName(c, j))
  }

  /** No entry but `.` and `..` is in use. */
  ghost predicate EmptyDir(c: seq<byte>) {
    forall k :: 2 <= k < Len(c) ==> EntIno(c, k) == 0
  }

  /** The inode that entry `k` of a live directory names is linked by that entry, and is not an empty directory's own. */
  lemma LinkedEntry(disk: Disk, dead: set<nat>, links: Links, d: nat, k: nat)
    requires TreeOk(disk, dead, links) && LiveDir(disk, dead, d)
    requires 2 <= k < Len(Contents(disk, d)) && EntIno(Contents(disk, d), k) != 0
    ensures var t := EntIno(Contents(disk, d), k);
      && t in links && links[t] == (d, k) && LinkOk(disk, dead, links, t)
      && (EmptyDir(Contents(disk, t)) ==> t != d)
  {
    hide DinodeAt, Contents, EntIno, EntName;
    assert DirOk(Contents(disk, d), d, links);
    assert LinkOk(disk, dead, links, EntIno(Contents(disk, d), k));
  }

  /** An empty directory, or a file, holds no link. */
  lemma OtherLinks(disk: Disk, dead: set<nat>, links: Links, t: nat)
    requires TreeOk(disk, dead, links) && t in links
    requires DinodeAt(disk, t).typ == TYPE_DIR ==> EmptyDir(Contents(disk, t))
    ensures forall u :: u in links && u != t ==> links[u].0 != t && links[u] != links[t]
  {
    hide DinodeAt, Contents, EntIno, EntName;
    assert LinkOk(disk, dead, links, t);
    forall u | u in links && u != t
      ensures links[u].0 != t && links[u] != links[t]
    {
      assert LinkOk(disk, dead, links, u);
    }
  }

  lemma OtherDir(c: seq<byte>, e: nat, links: Links, t: nat, d: nat, k: nat)
    requires DirOk(c, e, links) && t in links && links[t] == (d, k) && e != d && e != t
    ensures DirOk(c, e, links - {t})
  {
    hide EntIno, EntName;
  }

  lemma ClearedDir(c: seq<byte>, c2: seq<byte>, d: nat, links: Links, t: nat, k: nat)
    requires DirOk(c, d, links) && t in links && links[t] == (d, k) && d != t && k >= 2
    requires WellDir(c2) && k < Len(c) == Len(c2) && EntIno(c2, k) == 0 && EntIno(c, k) == t
    requires forall j :: 0 <= j < Len(c2) && j != k ==> EntIno(c2, j) == EntIno(c, j) && EntName(c2, j) == EntName(c, j)
    ensures DirOk(c2, d, links - {t})
  {
    hide EntIno, EntName, WellDir;
  }

  lemma RemoveKeepsTree(disk: Disk, disk2: Disk, dead: set<nat>, dead2: set<nat>, links: Links, d: nat, k: nat, t: nat)
    requires TreeOk(disk, dead, links) && forall i :: 0 <= i < INUM ==> Sized(disk, i)
    requires LiveDir(disk, dead, d) && k >= 2 && t < INUM
    requires Removed(disk, disk2, dead, dead2, d, k, t)
    requires t != 0 && (DinodeAt(disk, t).typ == TYPE_DIR ==> EmptyDir(Contents(disk, t)))
    requires WellDir(Contents(disk2, d))
    ensures TreeOk(disk2, dead2, links - {t})
  {
    hide DinodeAt, Contents, EntIno, EntName, Sized, SameFile, WellDir, BindsAt, DirOk, EmptyDir;
    var links2 := links - {t};
    var c, c2 := Contents(disk, d), Contents(disk2, d);
    LinkedEntry(disk, dead, links, d, k);
    assert LiveDir(disk2, dead2, d);
    forall i | 0 < i < INUM && i != d && i != t
      ensures Alive(disk2, dead2, i) <==> Alive(disk, dead, i)
      ensures LiveDir(disk2, dead2, i) <==> LiveDir(disk, dead, i)
      ensures Contents(disk2, i) == Contents(disk, i)
    {
      SameInode(disk, disk2, dead, dead2, i);
    }
    assert !Alive(disk2, dead2, t);
    OtherLinks(disk, dead, links, t);
    forall u | u in links2
      ensures LinkOk(disk2, dead2, links2, u)
    {
      assert LinkOk(disk, dead, links, u);
    }
    forall e | LiveDir(disk2, dead2, e)
      ensures DirOk(Contents(disk2, e), e, links2)
    {
      assert LiveDir(disk, dead, e);
      assert DirOk(Contents(disk, e), e, links);
      if e == d {
        ClearedDir(c, c2, d, links, t, k);
      } else {
        OtherDir(Contents(disk, e), e, links, t, d, k);
      }
    }
  }
}
