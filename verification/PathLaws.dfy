/** What creating and removing a file does to every path: a created file is found under its path, a removed one is
    not, and no other path comes to lead elsewhere. */
module PathLaws {
  import opened Options
  import opened Bytes
  import opened BlockDevice
  import opened FsLayout
  import opened FileSystem
  import opened Directory
  import opened Tree
  import opened Path
  import opened PathOps
  import opened Walk
  import opened Open
  import opened Remove

  ghost predicate DirAt(disk: Disk, e: nat) {
    e < INUM && DinodeAt(disk, e).typ == TYPE_DIR && WellDir(Contents(disk, e))
  }

  ghost function Names(disk: Disk, e: nat): map<Name, u32> {
    if DirAt(disk, e) then DirMap(Contents(disk, e)) else map[]
  }

  /** Every directory has at least the bindings that it had. */
  ghost predicate Grows(disk: Disk, disk2: Disk) {
    forall e: nat, n: Name :: n in Names(disk, e) ==> n in Names(disk2, e) && Names(disk2, e)[n] == Names(disk, e)[n]
  }

  lemma Step(disk: Disk, d: nat, comps: seq<Name>)
    requires comps != []
    ensures Resolve(disk, d, comps) ==
      if comps[0] in Names(disk, d) then Resolve(disk, Names(disk, d)[comps[0]], comps[1..]) else None
  {
    hide DinodeAt, Contents, WellDir, DirMap;
  }

  /** More bindings never change where a path that leads somewhere leads. */
  lemma {:induction false} ResolveGrows(disk: Disk, disk2: Disk, d: nat, comps: seq<Name>)
    requires Grows(disk, disk2) && Resolve(disk, d, comps).Some?
    ensures Resolve(disk2, d, comps) == Resolve(disk, d, comps)
    decreases |comps|
  {
    hide Names;
    if comps != [] {
      Step(disk, d, comps);
      Step(disk2, d, comps);
      ResolveGrows(disk, disk2, Names(disk, d)[comps[0]], comps[1..]);
    }
  }

  lemma {:induction false} ResolveLastName(disk: Disk, start: nat, comps: seq<Name>, d: nat)
    requires comps != [] && ParentFrom(disk, start, comps) == Some(d)
    ensures Resolve(disk, start, comps) ==
      var name := comps[|comps| - 1];
      if name in Names(disk, d) then Some(Names(disk, d)[name] as nat) else None
  {
    hide Names;
    var name := comps[|comps| - 1];
    ResolveSplit(disk, start, comps);
    var last: seq<Name> := [name];
    assert last[1..] == [] && last == [comps[|comps| - 1]];
    Step(disk, d, last);
  }

  lemma SameNames(disk: Disk, disk2: Disk, e: nat)
    requires e < INUM && Sized(disk, e) && SameFile(disk, disk2, e)
    ensures Names(disk2, e) == Names(disk, e)
  {
    hide DinodeAt, PosBlk, Contents, Sized, WellDir, DirMap;
    SameFileSame(disk, disk2, e);
  }

  // ---------------------------------------------------------------- creation

  lemma MadeGrows(a: FsState, b: FsState, d: nat, name: Name, t: nat, typ: u32, off: nat)
    requires d < INUM && t < INUM && Made(a, b, d, name, t, typ, off) && DirAt(a.disk, d) && name !in Names(a.disk, d)
    requires forall i :: 0 <= i < INUM ==> Sized(a.disk, i)
    ensures Grows(a.disk, b.disk) && name in Names(b.disk, d) && Names(b.disk, d)[name] == t
  {
    hide DinodeAt, Contents, Sized, WellDir, DirMap, SameFile, EntIno, EntName, NewDir;
    forall e: nat, n: Name | n in Names(a.disk, e)
      ensures n in Names(b.disk, e) && Names(b.disk, e)[n] == Names(a.disk, e)[n]
    {
      if e != d {
        assert e != t;
        SameNames(a.disk, b.disk, e);
      }
    }
  }

  /** A file that opening a path created is what the path leads to from then on; every path that led somewhere
      still leads there. */
  lemma CreatedIsFound(a: FsState, b: FsState, path: seq<byte>, cwd: nat, typ: u32, s: Option<nat>)
    requires OpenedPath(a, b, path, cwd, typ, s) && typ != TYPE_NONE && Components(path) != []
    requires Resolve(a.disk, Start(path, cwd), Components(path)).None?
    requires IsDir(a.disk, ParentFrom(a.disk, Start(path, cwd), Components(path)))
    requires WellDir(Contents(a.disk, ParentFrom(a.disk, Start(path, cwd), Components(path)).value))
    requires forall i :: 0 <= i < INUM ==> Sized(a.disk, i)
    ensures s.Some? && s.value < |b.table|
    ensures Resolve(b.disk, Start(path, cwd), Components(path)) == Some(b.table[s.value].no)
    ensures forall d0, comps0 :: Resolve(a.disk, d0, comps0).Some? ==> Resolve(b.disk, d0, comps0) == Resolve(a.disk, d0, comps0)
  {
    hide DinodeAt, Contents, Sized, WellDir, DirMap, Resolve, Components, Made, Names;
    var start, comps := Start(path, cwd), Components(path);
    var d, name := ParentFrom(a.disk, start, comps).value, comps[|comps| - 1];
    var t := b.table[s.value].no;
    var off :| Made(a, b, d, name, t, typ, off);
    ResolveLastName(a.disk, start, comps, d);
    MadeGrows(a, b, d, name, t, typ, off);
    forall d0, comps0 | Resolve(a.disk, d0, comps0).Some?
      ensures Resolve(b.disk, d0, comps0) == Resolve(a.disk, d0, comps0)
    {
      ResolveGrows(a.disk, b.disk, d0, comps0);
    }
    assert ParentFrom(b.disk, start, comps) == Some(d);
    ResolveLastName(b.disk, start, comps, d);
  }

  // ---------------------------------------------------------------- removal

  lemma UnlinkedShrinks(a: FsState, b: FsState, d: nat, name: Name, t: nat)
    requires d < INUM && t < INUM && Unlinked(a, b, d, name, t) && DinodeAt(a.disk, d).typ == TYPE_DIR
    requires forall i :: 0 <= i < INUM ==> Sized(a.disk, i) && Sized(b.disk, i)
    ensures Grows(b.disk, a.disk) && name !in Names(b.disk, d)
  {
    hide DinodeAt, Contents, Sized, WellDir, DirMap, SameFile, MarkedRefs;
    forall e: nat, n: Name | n in Names(b.disk, e)
      ensures n in Names(a.disk, e) && Names(a.disk, e)[n] == Names(b.disk, e)[n]
    {
      if e != d {
        SameNames(a.disk, b.disk, e);
      }
    }
  }

  /** A path led to the file that was removed by it, leads nowhere after that, and no path comes to lead elsewhere. */
  lemma RemovedIsGone(a: FsState, b: FsState, start: nat, comps: seq<Name>)
    requires RemovedPath(a, b, start, comps, 0)
    requires forall i :: 0 <= i < INUM ==> Sized(a.disk, i) && Sized(b.disk, i)
    ensures Resolve(a.disk, start, comps).Some? && Resolve(b.disk, start, comps).None?
    ensures forall d0, comps0 :: Resolve(b.disk, d0, comps0).Some? ==> Resolve(a.disk, d0, comps0) == Resolve(b.disk, d0, comps0)
  {
    hide DinodeAt, Contents, Sized, WellDir, DirMap, Resolve, Unlinked, RemovableFile, SameRefs;
    var d, name := ParentFrom(a.disk, start, comps).value, comps[|comps| - 1];
    ResolveLastName(a.disk, start, comps, d);
    UnlinkedShrinks(a, b, d, name, DirMap(Contents(a.disk, d))[name]);
    forall d0, comps0 | Resolve(b.disk, d0, comps0).Some?
      ensures Resolve(a.disk, d0, comps0) == Resolve(b.disk, d0, comps0)
    {
      ResolveGrows(b.disk, a.disk, d0, comps0);
    }
    var p := ParentFrom(b.disk, start, comps);
    if p.Some? {
      assert p == Some(d);
      ResolveLastName(b.disk, start, comps, d);
    } else {
      ResolveSplit(b.disk, start, comps);
    }
  }
}
