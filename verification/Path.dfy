/** Paths: their components, and the inode a walk over the components reaches. */
module Path {
  import opened Options
  import opened Bytes
  import opened BlockDevice
  import opened FsLayout
  import opened Directory

  const SLASH := 47

  /** A C string: it holds no NUL. */
  predicate IsPath(path: seq<byte>) {
    0 !in path
  }

  function StripSlashes(path: seq<byte>): (r: seq<byte>)
    ensures |r| <= |path|
  {
    if path != [] && path[0] == SLASH then StripSlashes(path[1..]) else path
  }

  function ElemLen(path: seq<byte>): (n: nat)
    ensures n <= |path|
    ensures path != [] && path[0] != SLASH ==> n > 0
  {
    if path == [] || path[0] == SLASH then 0 else 1 + ElemLen(path[1..])
  }

  function Cut(s: seq<byte>): Name {
    if |s| >= MAX_NAME then s[..MAX_NAME] else s
  }

  predicate Stripped(path: seq<byte>) {
    path == [] || path[0] != SLASH
  }

  /** The slash-separated components of a path, each cut to 27 bytes. */
  function Components(path: seq<byte>): seq<Name>
    decreases |path|, |path|
  {
    ComponentsOf(StripSlashes(path))
  }

  function ComponentsOf(p: seq<byte>): seq<Name>
    decreases |p|
  {
    if p == [] || p[0] == SLASH then []
    else [Cut(p[..ElemLen(p)])] + ComponentsOf(StripSlashes(p[ElemLen(p)..]))
  }

  lemma {:induction false} StripIs(path: seq<byte>, p: nat)
    requires p <= |path| && (forall x :: 0 <= x < p ==> path[x] == SLASH) && (p < |path| ==> path[p] != SLASH)
    ensures StripSlashes(path) == path[p..]
  {
    if p > 0 {
      StripIs(path[1..], p - 1);
      assert path[1..][p - 1..] == path[p..];
    }
  }

  lemma {:induction false} ElemLenIs(path: seq<byte>, n: nat)
    requires n <= |path| && (forall x :: 0 <= x < n ==> path[x] != SLASH) && (n < |path| ==> path[n] == SLASH)
    ensures ElemLen(path) == n
  {
    if n > 0 {
      ElemLenIs(path[1..], n - 1);
    }
  }

  lemma Unfold(p: seq<byte>)
    ensures Stripped(p) && p != [] ==>
      ComponentsOf(p) == [Cut(p[..ElemLen(p)])] + ComponentsOf(StripSlashes(p[ElemLen(p)..]))
    ensures Stripped(p) ==> (ComponentsOf(p) == [] <==> p == [])
  {
  }

  lemma ElemAndRest(path: seq<byte>, s: nat, q: nat)
    requires s < q <= |path|
    requires forall x :: 0 <= x < s ==> path[x] == SLASH
    requires forall x :: s <= x < q ==> path[x] != SLASH
    requires q < |path| ==> path[q] == SLASH
    ensures Components(path) == [Cut(path[s..q])] + ComponentsOf(StripSlashes(path[q..]))
  {
    hide StripSlashes, ElemLen, ComponentsOf, Cut;
    var t := path[s..];
    assert t[0] == path[s];
    StripIs(path, s);
    ElemLenIs(t, q - s);
    Unfold(t);
    assert t[..q - s] == path[s..q] && t[q - s..] == path[q..];
  }

  lemma RestStripped(path: seq<byte>, q: nat, p: nat)
    requires q <= p <= |path|
    requires forall x :: q <= x < p ==> path[x] == SLASH
    requires p < |path| ==> path[p] != SLASH
    ensures ComponentsOf(StripSlashes(path[q..])) == Components(path[p..])
    ensures Components(path[p..]) == [] <==> p == |path|
  {
    hide StripSlashes, ElemLen, ComponentsOf;
    var t, r := path[q..], path[p..];
    StripIs(t, p - q);
    assert t[p - q..] == r;
    StripIs(r, 0);
    assert r[0..] == r;
    Unfold(r);
  }

  lemma ComponentNames(p: seq<byte>)
    requires IsPath(p)
    ensures forall n :: n in ComponentsOf(p) ==> IsName(n)
    decreases |p|
  {
    if p != [] && p[0] != SLASH {
      var rest := p[ElemLen(p)..];
      StripIsPath(rest);
      ComponentNames(StripSlashes(rest));
      var n := p[..ElemLen(p)];
      assert Cut(n) <= n && Cut(n) <= p;
      assert IsName(Cut(n));
    }
  }

  lemma {:induction false} StripIsPath(p: seq<byte>)
    requires IsPath(p)
    ensures IsPath(StripSlashes(p))
  {
    if p != [] && p[0] == SLASH {
      StripIsPath(p[1..]);
    }
  }

  /** Every component of a path can be a name in a directory. */
  lemma ComponentsAreNames(path: seq<byte>)
    requires IsPath(path)
    ensures forall n :: n in Components(path) ==> IsName(n)
  {
    StripIsPath(path);
    ComponentNames(StripSlashes(path));
  }

  /** The next path element and what follows it, without leading slashes; none if only slashes are left. */
  method SkipElem(path: seq<byte>) returns (rest: Option<seq<byte>>, name: Name)
    ensures Components(path) == [] <==> rest.None?
    ensures rest.Some? ==> Components(path) == [name] + Components(rest.value)
    ensures rest.Some? ==> (rest.value == [] <==> Components(rest.value) == [])
    ensures rest.Some? ==> |rest.value| < |path| && rest.value == path[|path| - |rest.value|..]
  {
    hide Components, ComponentsOf;
    name := [];
    var p := 0;
    while p < |path| && path[p] == SLASH
      invariant 0 <= p <= |path|
      invariant forall x :: 0 <= x < p ==> path[x] == SLASH
    {
      p := p + 1;
    }
    if p == |path| {
      OnlySlashes(path);
      return None, name;
    }
    var s := p;
    while p < |path| && path[p] != SLASH
      invariant s <= p <= |path|
      invariant forall x :: s <= x < p ==> path[x] != SLASH
    {
      p := p + 1;
    }
    var q := p;
    if q - s >= MAX_NAME {
      name := path[s..s + MAX_NAME];
      assert path[s..q][..MAX_NAME] == name;
    } else {
      name := path[s..q];
    }
    while p < |path| && path[p] == SLASH
      invariant q <= p <= |path|
      invariant forall x :: q <= x < p ==> path[x] == SLASH
    {
      p := p + 1;
    }
    ElemAndRest(path, s, q);
    RestStripped(path, q, p);
    rest := Some(path[p..]);
  }

  lemma OnlySlashes(path: seq<byte>)
    requires forall x :: 0 <= x < |path| ==> path[x] == SLASH
    ensures Components(path) == []
  {
    StripIs(path, |path|);
  }

  /** The inode reached from directory `d` by walking the components, if every step is a bound name in a directory. */
  ghost function Resolve(disk: Disk, d: nat, comps: seq<Name>): Option<nat>
    decreases |comps|
  {
    if comps == [] then Some(d)
    else if d >= INUM || DinodeAt(disk, d).typ != TYPE_DIR || !WellDir(Contents(disk, d)) then None
    else
      var m := DirMap(Contents(disk, d));
      if comps[0] in m then Resolve(disk, m[comps[0]], comps[1..]) else None
  }

  lemma {:induction false} ResolveSplit(disk: Disk, d: nat, comps: seq<Name>)
    requires comps != []
    ensures Resolve(disk, d, comps) ==
      var r := Resolve(disk, d, comps[..|comps| - 1]);
      if r.None? then None else Resolve(disk, r.value, [comps[|comps| - 1]])
    decreases |comps|
  {
    hide DinodeAt, Contents, WellDir, DirMap;
    if |comps| == 1 {
      assert comps == [comps[0]];
    } else {
      assert comps[1..][..|comps| - 2] == comps[..|comps| - 1][1..];
      if d < INUM && DinodeAt(disk, d).typ == TYPE_DIR && WellDir(Contents(disk, d)) && comps[0] in DirMap(Contents(disk, d)) {
        ResolveSplit(disk, DirMap(Contents(disk, d))[comps[0]], comps[1..]);
      }
    }
  }
}
