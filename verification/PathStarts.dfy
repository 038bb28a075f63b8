/** Where paths start and how they compose: what a plain name, an absolute path, and a path after a change of directory
    lead to (kernel/src/fs.c, kernel/src/syscall.c). */
module PathStarts {
  import opened Options
  import opened Bytes
  import opened BlockDevice
  import opened FsLayout
  import opened Directory
  import opened Tree
  import opened Path
  import opened PathOps
  import opened Walk
  import opened Open
  import opened Remove
  import opened Descriptors
  import opened DescriptorRuns
  import FSM = FileSystem
  import PL = PathLaws
  import FT = FileTable

  // ---------------------------------------------------------------- the components of a path

  /** The components of two paths with a slash between them are those of the one and then those of the other. */
  lemma {:induction false} ComponentsJoin(q: seq<byte>, p: seq<byte>)
    ensures Components(Joined(q, p)) == Components(q) + Components(p)
    decreases |q|
  {
    hide Components, ComponentsOf, StripSlashes, ElemLen, Cut;
    var path := Joined(q, p);
    if q == [] {
      SlashFirst(path);
      assert path[1..] == p;
      OnlySlashes(q);
    } else if q[0] == SLASH {
      SlashFirst(path);
      SlashFirst(q);
      assert path[1..] == Joined(q[1..], p);
      ComponentsJoin(q[1..], p);
    } else {
      var n := FirstElem(q);
      assert path[0..n] == q[0..n] && path[n..] == Joined(q[n..], p);
      ElemThen(q, n);
      ElemThen(path, n);
      ComponentsJoin(q[n..], p);
    }
  }

  function Joined(q: seq<byte>, p: seq<byte>): seq<byte> {
    q + [SLASH] + p
  }

  lemma SlashFirst(path: seq<byte>)
    requires path != [] && path[0] == SLASH
    ensures Components(path) == Components(path[1..])
  {
  }

  lemma FirstElem(q: seq<byte>) returns (n: nat)
    requires q != [] && q[0] != SLASH
    ensures 0 < n <= |q| && (forall x :: 0 <= x < n ==> q[x] != SLASH) && (n < |q| ==> q[n] == SLASH)
  {
    n := 1;
    while n < |q| && q[n] != SLASH
      invariant 0 < n <= |q| && forall x :: 0 <= x < n ==> q[x] != SLASH
    {
      n := n + 1;
    }
  }

  lemma ElemThen(path: seq<byte>, n: nat)
    requires 0 < n <= |path| && (forall x :: 0 <= x < n ==> path[x] != SLASH) && (n < |path| ==> path[n] == SLASH)
    ensures Components(path) == [Cut(path[0..n])] + Components(path[n..])
  {
    hide ComponentsOf, StripSlashes, ElemLen, Cut;
    ElemAndRest(path, 0, n);
    AreOf(path[n..]);
  }

  lemma AreOf(path: seq<byte>)
    ensures Components(path) == ComponentsOf(StripSlashes(path))
  {
  }

  /** A path that is one name, without a slash. */
  predicate PlainName(name: seq<byte>) {
    name != [] && SLASH !in name
  }

  /** The 27 bytes of a name that count. */
  function Short(name: seq<byte>): Name {
    if |name| <= 27 then name else name[..27]
  }

  lemma OneComponent(name: seq<byte>)
    requires PlainName(name)
    ensures Components(name) == [Short(name)]
  {
    hide Components;
    assert forall x :: 0 <= x < |name| ==> name[x] in name;
    ElemThen(name, |name|);
    assert name[0..|name|] == name && name[|name|..] == [];
    OnlySlashes([]);
  }

  lemma RelativeSome(rel: seq<byte>)
    requires rel != [] && rel[0] != SLASH
    ensures Components(rel) != []
  {
  }

  // ---------------------------------------------------------------- plain names

  /** Opening a plain name opens what the current directory binds it to; if it is free there and a type is given, that
      directory binds it to a new inode, and keeps its other names. */
  lemma OpensHere(a: FsState, b: FsState, name: seq<byte>, d: nat, typ: u32, s: Option<nat>)
    requires OpenedPath(a, b, name, d, typ, s) && PlainName(name) && PL.DirAt(a.disk, d)
    ensures var n, m := Short(name), PL.Names(a.disk, d);
            if n in m then SameDisk(a, b) && s.Some? && OpenedAt(a, b, s.value, m[n])
            else if typ == TYPE_NONE then s.None? && SameDisk(a, b)
            else
              && s.Some? && s.value < |b.table| && PL.DirAt(b.disk, d) && BindsMore(m, PL.Names(b.disk, d), n, b.table[s.value].no)
              && IsNew(a.disk, b.disk, b.table[s.value].no, typ)
  {
    hide DinodeAt, Contents, Components, WellDir, DirMap, SameFile;
    var n := Short(name);
    OneComponent(name);
    assert name[0] in name;
    NameStep(a.disk, d, n);
    assert ParentFrom(a.disk, d, [n]) == Some(d);
    if n !in PL.Names(a.disk, d) && typ != TYPE_NONE {
      MadeHere(a, b, s, d, n, typ);
    }
  }

  /** The same bindings and one more. */
  ghost predicate BindsMore(m: map<Name, u32>, m2: map<Name, u32>, n: Name, t: nat) {
    n !in m && n in m2 && m2[n] as int == t && m2 - {n} == m
  }

  /** Inode t was free and has this type now; if it is a plain file it is empty. */
  ghost predicate IsNew(disk: Disk, disk2: Disk, t: nat, typ: u32) {
    && t < INUM && DinodeAt(disk, t).typ == TYPE_NONE && DinodeAt(disk2, t).typ == typ
    && (typ == TYPE_FILE ==> Contents(disk2, t) == [])
  }

  lemma NoBytes(disk: Disk, t: nat)
    requires t < INUM && DinodeAt(disk, t).size == 0
    ensures Contents(disk, t) == []
  {
    hide DinodeAt;
  }

  lemma MadeHere(a: FsState, b: FsState, s: Option<nat>, d: nat, n: Name, typ: u32)
    requires OpenedNew(a, b, s, d, n, typ) && PL.DirAt(a.disk, d) && n !in PL.Names(a.disk, d)
    ensures s.Some? && s.value < |b.table| && PL.DirAt(b.disk, d) && BindsMore(PL.Names(a.disk, d), PL.Names(b.disk, d), n, b.table[s.value].no)
    ensures IsNew(a.disk, b.disk, b.table[s.value].no, typ)
  {
    hide DinodeAt, Contents, WellDir, DirMap, SameFile, EntIno, EntName, NewDir;
    var off :| Made(a, b, d, n, b.table[s.value].no, typ, off);
    if typ == TYPE_FILE {
      NoBytes(b.disk, b.table[s.value].no);
    }
  }

  lemma NameStep(disk: Disk, d: nat, n: Name)
    requires PL.DirAt(disk, d)
    ensures Resolve(disk, d, [n]) == if n in PL.Names(disk, d) then Some(PL.Names(disk, d)[n] as nat) else None
    ensures ParentFrom(disk, d, [n]) == Some(d) && IsDir(disk, Some(d))
  {
    hide DinodeAt, Contents, WellDir, DirMap;
    PL.Step(disk, d, [n]);
    assert [n][1..] == [] && [n][..0] == [];
  }

  /** Whether a name can be removed: it is not a dot, and is bound to a file or to an empty directory. */
  ghost predicate CanUnbind(disk: Disk, m: map<Name, u32>, n: Name) {
    n != Dot && n != DotDot && n in m && m[n] < INUM && RemovableFile(disk, m[n])
  }

  /** What removing name n of directory d does. */
  ghost predicate Unbinds(a: FsState, b: FsState, d: nat, n: Name, r: int) {
    if CanUnbind(a.disk, PL.Names(a.disk, d), n) then r == 0 && PL.Names(b.disk, d) == PL.Names(a.disk, d) - {n}
    else r == -1 && SameDisk(a, b)
  }

  /** Removing a plain name removes it from the current directory. */
  lemma UnlinksHere(w: World, w2: World, p: nat, name: seq<byte>, r: int)
    requires UnlinkedPath(w, w2, p, name, r) && PlainName(name) && w.procs[p].cwd.value < |w.fs.table|
    requires PL.DirAt(w.fs.disk, w.fs.table[w.procs[p].cwd.value].no)
    ensures Unbinds(w.fs, w2.fs, w.fs.table[w.procs[p].cwd.value].no, Short(name), r)
  {
    hide DinodeAt, Contents, Components, WellDir, DirMap, SameFile, Unbinds;
    var d := w.fs.table[w.procs[p].cwd.value].no;
    OneComponent(name);
    assert name[0] in name;
    UnboundFrom(w.fs, w2.fs, d, Short(name), r);
  }

  lemma UnboundFrom(a: FsState, b: FsState, d: nat, n: Name, r: int)
    requires RemovedPath(a, b, d, [n], r) && PL.DirAt(a.disk, d)
    ensures Unbinds(a, b, d, n, r)
  {
    hide DinodeAt, Contents, WellDir, DirMap, SameFile, RemovableFile, MarkedRefs;
    NameStep(a.disk, d, n);
  }

  /** A slash and a plain name: it is removed from the root, wherever the process is. */
  lemma UnlinksInRoot(w: World, w2: World, p: nat, name: seq<byte>, r: int)
    requires UnlinkedPath(w, w2, p, Joined([], name), r) && PlainName(name) && PL.DirAt(w.fs.disk, ROOT)
    ensures Unbinds(w.fs, w2.fs, ROOT, Short(name), r)
  {
    hide DinodeAt, Contents, Components, WellDir, DirMap, SameFile, Unbinds;
    ComponentsJoin([], name);
    OnlySlashes([]);
    OneComponent(name);
    UnboundFrom(w.fs, w2.fs, ROOT, Short(name), r);
  }

  /** A directory can be removed just when it has no names but the two dots. */
  lemma BareIffRemovable(disk: Disk, dead: set<nat>, links: Links, t: nat)
    requires TreeOk(disk, dead, links) && LiveDir(disk, dead, t)
    ensures RemovableFile(disk, t) <==> PL.Names(disk, t).Keys == {Dot, DotDot}
  {
    hide DinodeAt, Contents, EntIno, EntName;
    var c := Contents(disk, t);
    assert DirOk(c, t, links);
    assert DirMap(c)[EntName(c, 0)] == EntIno(c, 0) && DirMap(c)[EntName(c, 1)] == EntIno(c, 1);
    if k :| 2 <= k < Len(c) && EntIno(c, k) != 0 {
      assert EntName(c, k) in DirMap(c) && EntName(c, k) != EntName(c, 0) && EntName(c, k) != EntName(c, 1);
    }
  }

  /** `.` leads back to the directory it is in, and `..` of the root to the root. */
  lemma DotLeadsHere(disk: Disk, dead: set<nat>, links: Links, d: nat)
    requires TreeOk(disk, dead, links) && LiveDir(disk, dead, d)
    ensures Resolve(disk, d, [Dot]) == Some(d) && Resolve(disk, ROOT, [DotDot]) == Some(ROOT)
  {
    hide DinodeAt, WellDir, PL.Names, Resolve, TreeOk, PL.DirAt;
    LiveAt(disk, dead, links, d);
    LiveAt(disk, dead, links, ROOT);
    NameStep(disk, d, Dot);
    NameStep(disk, ROOT, DotDot);
  }

  /** Down into a directory and `..` is nowhere else. */
  lemma DotDotLeadsBack(disk: Disk, dead: set<nat>, links: Links, d: nat, n: Name, t: nat)
    requires TreeOk(disk, dead, links) && LiveDir(disk, dead, d) && n != Dot && n != DotDot
    requires Resolve(disk, d, [n]) == Some(t) && IsDir(disk, Some(t))
    ensures Resolve(disk, d, [n, DotDot]) == Some(d)
  {
    hide DinodeAt, WellDir, PL.Names, Resolve, TreeOk, PL.DirAt;
    LiveAt(disk, dead, links, d);
    NameStep(disk, d, n);
    BoundBelow(disk, dead, links, d, n);
    LiveAt(disk, dead, links, t);
    NameStep(disk, t, DotDot);
    ResolveJoin(disk, d, [n], [DotDot]);
    assert [n] + [DotDot] == [n, DotDot];
  }

  /** The names of a live directory for itself and its parent. */
  lemma LiveAt(disk: Disk, dead: set<nat>, links: Links, d: nat)
    requires TreeOk(disk, dead, links) && (d == ROOT || LiveDir(disk, dead, d))
    ensures LiveDir(disk, dead, d) && PL.DirAt(disk, d)
    ensures var m := PL.Names(disk, d); Dot in m && m[Dot] as int == d && DotDot in m && m[DotDot] as int == ParentOf(d, links)
    ensures d == ROOT ==> ParentOf(d, links) == ROOT
  {
    hide DinodeAt, Contents, EntIno, EntName;
    var c := Contents(disk, d);
    assert DirOk(c, d, links);
    assert DirMap(c)[EntName(c, 0)] == EntIno(c, 0) && DirMap(c)[EntName(c, 1)] == EntIno(c, 1);
  }

  /** What another name of a live directory is bound to has this directory for its parent. */
  lemma BoundBelow(disk: Disk, dead: set<nat>, links: Links, d: nat, n: Name)
    requires TreeOk(disk, dead, links) && LiveDir(disk, dead, d) && n != Dot && n != DotDot && n in PL.Names(disk, d)
    ensures var t := PL.Names(disk, d)[n]; Alive(disk, dead, t) && ParentOf(t, links) == d
  {
    hide DinodeAt, Contents, EntIno, EntName;
    var c := Contents(disk, d);
    assert DirOk(c, d, links);
    NamesAlive(disk, dead, links, d, n);
    var k :| 0 <= k < Len(c) && EntIno(c, k) != 0 && EntName(c, k) == n && EntIno(c, k) == DirMap(c)[n];
    assert k >= 2;
  }

  // ---------------------------------------------------------------- absolute paths

  /** An absolute path is opened as what follows its slash is from the root. */
  lemma FromRoot(a: FsState, b: FsState, rel: seq<byte>, cwd: nat, typ: u32, s: Option<nat>)
    requires rel != [] && rel[0] != SLASH
    ensures OpenedPath(a, b, Joined([], rel), cwd, typ, s) <==> OpenedPath(a, b, rel, ROOT, typ, s)
  {
    hide DinodeAt, Contents, Components, Resolve, ParentFrom, OpenedNew, OpenedOnly;
    ComponentsJoin([], rel);
    OnlySlashes([]);
    RelativeSome(rel);
    assert Joined([], rel)[0] == SLASH && [] + Components(rel) == Components(rel);
  }

  /** An absolute path is opened the same wherever the process is, and removed the same whoever removes it. */
  lemma AnyDirectory(a: FsState, b: FsState, path: seq<byte>, cwd: nat, cwd2: nat, typ: u32, s: Option<nat>)
    requires path != [] && path[0] == SLASH
    ensures OpenedPath(a, b, path, cwd, typ, s) <==> OpenedPath(a, b, path, cwd2, typ, s)
  {
    hide DinodeAt, Contents, Components, Resolve, ParentFrom, OpenedNew, OpenedOnly;
  }

  lemma AnyRemover(w: World, w2: World, p: nat, p2: nat, path: seq<byte>, r: int)
    requires path != [] && path[0] == SLASH
    requires p < |w.procs| && p2 < |w.procs| && w.procs[p].cwd.Some? && w.procs[p2].cwd.Some?
    ensures UnlinkedPath(w, w2, p, path, r) <==> UnlinkedPath(w, w2, p2, path, r)
  {
    hide RemovedPath, Components;
  }

  // ---------------------------------------------------------------- changing the directory

  lemma {:induction false} ResolveJoin(disk: Disk, d: nat, a: seq<Name>, b: seq<Name>)
    ensures Resolve(disk, d, a + b) == if Resolve(disk, d, a).Some? then Resolve(disk, Resolve(disk, d, a).value, b) else None
    decreases |a|
  {
    hide PL.Names;
    if a == [] {
      assert a + b == b;
    } else {
      assert (a + b)[1..] == a[1..] + b;
      PL.Step(disk, d, a);
      PL.Step(disk, d, a + b);
      if a[0] in PL.Names(disk, d) {
        ResolveJoin(disk, PL.Names(disk, d)[a[0]], a[1..], b);
      }
    }
  }

  /** Freeing a removed inode does not change where a path from a linked directory leads. */
  lemma {:induction false} ResolveAside(disk: Disk, disk2: Disk, dead: set<nat>, links: Links, d: nat, comps: seq<Name>, z: nat)
    requires TreeOk(disk, dead, links) && Alive(disk, dead, d) && z in dead && z < INUM
    requires forall j :: 0 <= j < INUM ==> Sized(disk, j) && (j != z ==> SameFile(disk, disk2, j))
    ensures Resolve(disk2, d, comps) == Resolve(disk, d, comps)
    decreases |comps|
  {
    hide PL.Names, TreeOk, Sized, SameFile, DinodeAt;
    if comps != [] {
      PL.Step(disk, d, comps);
      PL.Step(disk2, d, comps);
      PL.SameNames(disk, disk2, d);
      if comps[0] in PL.Names(disk, d) {
        NamesAlive(disk, dead, links, d, comps[0]);
        ResolveAside(disk, disk2, dead, links, PL.Names(disk, d)[comps[0]], comps[1..], z);
      }
    }
  }

  lemma NamesAlive(disk: Disk, dead: set<nat>, links: Links, d: nat, n: Name)
    requires TreeOk(disk, dead, links) && Alive(disk, dead, d) && n in PL.Names(disk, d)
    ensures Alive(disk, dead, PL.Names(disk, d)[n])
  {
    hide DinodeAt, Contents, WellDir, DirMap, TreeOk;
    BoundAlive(disk, dead, links, d, n);
  }

  /** Where a path leads, if it is not empty. */
  ghost function Leads(disk: Disk, cwd: nat, path: seq<byte>): Option<nat> {
    Resolve(disk, Start(path, cwd), Components(path))
  }

  /** Opening a path opens where it leads. */
  lemma OpensWhere(a: FsState, b: FsState, path: seq<byte>, cwd: nat, s: Option<nat>)
    requires OpenedPath(a, b, path, cwd, TYPE_NONE, s) && path != []
    ensures s.Some? <==> Leads(a.disk, cwd, path).Some?
    ensures s.Some? ==> s.value < |b.table| && Leads(a.disk, cwd, path) == Some(b.table[s.value].no)
    ensures SameDisk(a, b)
  {
    hide DinodeAt, Contents, Components, ParentFrom, OpenedNew;
    if Components(path) == [] {
      EmptyPath(path);
    }
  }

  /** The process changed to where q leads. */
  lemma ChangedTo(w: World, w2: World, p: nat, q: seq<byte>, m: FsState, s: Option<nat>) returns (z: nat)
    requires WorldOk(w) && MayOpen(w, p, q) && ChangedDir(w, w2, p, q, 0, m, s)
    ensures q != [] && w2.procs[p].cwd.Some?
    ensures Leads(w.fs.disk, CwdNo(w.fs.table, w.procs[p].cwd.value), q) == Some(CwdNo(w2.fs.table, w2.procs[p].cwd.value))
    ensures w2.fs.disk == w.fs.disk ||
              (z < INUM && z in Dead(w.fs.table) && forall j :: 0 <= j < INUM && j != z ==> SameFile(w.fs.disk, w2.fs.disk, j))
  {
    hide DinodeAt, WorldOk, OpenedPath, MayOpen, Leads, SameFile, Dead, FreedFile;
    var cwd := CwdNo(w.fs.table, w.procs[p].cwd.value);
    z := m.table[w.procs[p].cwd.value].no;
    EmptyOpens(w.fs, m, q, cwd, s);
    OpensWhere(w.fs, m, q, cwd, s);
    FT.OpenedRefs(w.fs, m, q, cwd, TYPE_NONE, s);
    DeadPlus(w.fs.table, m.table, s.value);
    if FSM.Freed(m.table[w.procs[p].cwd.value]) {
      FT.IsDead(m.table, w.procs[p].cwd.value);
    }
  }

  lemma EmptyOpens(a: FsState, m: FsState, q: seq<byte>, cwd: nat, s: Option<nat>)
    requires OpenedPath(a, m, q, cwd, TYPE_NONE, s)
    ensures q == [] ==> s.None?
  {
    OnlySlashes([]);
  }

  /** After changing to q, a relative path leads where q, a slash and the path led before. */
  lemma ChdirThenOpen(w: World, w2: World, p: nat, q: seq<byte>, m: FsState, s: Option<nat>, rel: seq<byte>,
                      b0: FsState, t0: Option<nat>, b: FsState, t: Option<nat>)
    requires WorldOk(w) && MayOpen(w, p, q) && ChangedDir(w, w2, p, q, 0, m, s) && rel != [] && rel[0] != SLASH
    requires OpenedPath(w.fs, b0, Joined(q, rel), CwdNo(w.fs.table, w.procs[p].cwd.value), TYPE_NONE, t0)
    requires w2.procs[p].cwd.Some? && OpenedPath(w2.fs, b, rel, CwdNo(w2.fs.table, w2.procs[p].cwd.value), TYPE_NONE, t)
    ensures t.Some? <==> t0.Some?
    ensures t.Some? ==> t.value < |b.table| && t0.value < |b0.table| && b.table[t.value].no == b0.table[t0.value].no
  {
    hide DinodeAt, WorldOk, OpenedPath, SameFile, Dead, FT.Closed, Resolve, Components, TreeOk, CwdNo;
    var cwd, e := CwdNo(w.fs.table, w.procs[p].cwd.value), CwdNo(w2.fs.table, w2.procs[p].cwd.value);
    var z := ChangedTo(w, w2, p, q, m, s);
    OpensWhere(w.fs, b0, Joined(q, rel), cwd, t0);
    OpensWhere(w2.fs, b, rel, e, t);
    ComponentsJoin(q, rel);
    ResolveJoin(w.fs.disk, Start(q, cwd), Components(q), Components(rel));
    OkTree(w);
    StartAlive(w, p, q);
    ResolveAlive(w.fs.disk, Dead(w.fs.table), w.fs.links, Start(q, cwd), Components(q));
    if w2.fs.disk != w.fs.disk {
      ResolveAside(w.fs.disk, w2.fs.disk, Dead(w.fs.table), w.fs.links, e, Components(rel), z);
    }
  }
}
