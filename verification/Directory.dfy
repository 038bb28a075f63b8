/** Directories: the bytes of a directory file as 32-byte entries, and the finite map they stand for. */
module Directory {
  import opened Bytes
  import opened FileSystem

  const DIRENT := 32
  const MAX_NAME := 27

  type Name = seq<byte>

  const Dot: Name := [46]
  const DotDot: Name := [46, 46]

  /** The C string at the start of a buffer. */
  function CStr(b: seq<byte>): (s: seq<byte>)
    ensures |s| <= |b|
    ensures |s| < |b| ==> b[|s|] == 0
    ensures s == b[..|s|] && 0 !in s
  {
    if b == [] || b[0] == 0 then [] else [b[0]] + CStr(b[1..])
  }

  predicate IsName(name: Name) {
    0 < |name| <= MAX_NAME && 0 !in name
  }

  /** strcpy into the name field of an entry: what follows the NUL stays. */
  function StrCpy(buf: seq<byte>, name: Name): (r: seq<byte>)
    requires |name| < |buf|
    ensures |r| == |buf|
  {
    name + [0] + buf[|name| + 1..]
  }

  lemma {:induction false} CStrOfCopy(buf: seq<byte>, name: Name)
    requires |name| < |buf| && 0 !in name
    ensures CStr(StrCpy(buf, name)) == name
  {
    var r := StrCpy(buf, name);
    if name != [] {
      assert r[0] == name[0] && name[0] in name;
      assert r[1..] == StrCpy(buf[1..], name[1..]);
      CStrOfCopy(buf[1..], name[1..]);
    }
  }

  // ---------------------------------------------------------------- entries

  function Len(c: seq<byte>): nat {
    |c| / DIRENT
  }

  function EntIno(c: seq<byte>, k: nat): u32
    requires k < Len(c)
  {
    GetU32(c, DIRENT * k)
  }

  function EntName(c: seq<byte>, k: nat): Name
    requires k < Len(c)
  {
    CStr(c[DIRENT * k + 4..DIRENT * k + DIRENT])
  }

  /** A well-formed directory: whole entries, names that fit, and no name bound twice. */
  ghost predicate WellDir(c: seq<byte>) {
    && |c| % DIRENT == 0
    && (forall k :: 0 <= k < Len(c) && EntIno(c, k) != 0 ==> IsName(EntName(c, k)))
    && (forall k, l :: 0 <= k < l < Len(c) && EntIno(c, k) != 0 && EntIno(c, l) != 0 ==> EntName(c, k) != EntName(c, l))
  }

  ghost predicate BindsAt(c: seq<byte>, k: nat, name: Name) {
    k < Len(c) && EntIno(c, k) != 0 && EntName(c, k) == name
  }

  /** The finite map a directory stands for. */
  ghost function DirMap(c: seq<byte>): map<Name, u32>
    requires WellDir(c)
  {
    map k | 0 <= k < Len(c) && EntIno(c, k) != 0 :: EntName(c, k) := EntIno(c, k)
  }

  /** The image of a directory entry in memory. */
  function Dirent(ino: u32, nameField: seq<byte>): seq<byte>
    requires |nameField| == DIRENT - 4
  {
    PutU32(ino) + nameField
  }

  lemma DirentParts(ino: u32, nameField: seq<byte>)
    requires |nameField| == DIRENT - 4
    ensures GetU32(Dirent(ino, nameField), 0) == ino && Dirent(ino, nameField)[4..] == nameField
  {
    WordOfBytes(ino);
  }

  /** Overwriting entry `k`, or appending it, changes that entry only. */
  lemma EntriesAfterWrite(c: seq<byte>, k: nat, ent: seq<byte>, j: nat)
    requires |c| % DIRENT == 0 && k <= Len(c) && |ent| == DIRENT
    requires j < Len(Splice(c, DIRENT * k, ent))
    ensures |Splice(c, DIRENT * k, ent)| == if k == Len(c) then |c| + DIRENT else |c|
    ensures j == k || j < Len(c)
    ensures EntIno(Splice(c, DIRENT * k, ent), j) == if j == k then GetU32(ent, 0) else EntIno(c, j)
    ensures EntName(Splice(c, DIRENT * k, ent), j) == if j == k then CStr(ent[4..]) else EntName(c, j)
  {
    hide CStr, GetU32;
    var c2 := Splice(c, DIRENT * k, ent);
    if j == k {
      assert c2[DIRENT * k..DIRENT * k + DIRENT] == ent;
      EntryIsSlice(c2, k);
    } else {
      assert c2[DIRENT * j..DIRENT * j + DIRENT] == c[DIRENT * j..DIRENT * j + DIRENT];
      EntryIsSlice(c2, j);
      EntryIsSlice(c, j);
    }
  }

  /** What iread of one entry gives is that entry. */
  lemma EntryIsSlice(c: seq<byte>, k: nat)
    requires k < Len(c)
    ensures EntIno(c, k) == GetU32(c[DIRENT * k..DIRENT * k + DIRENT], 0)
    ensures EntName(c, k) == CStr(c[DIRENT * k..DIRENT * k + DIRENT][4..])
  {
    hide CStr;
    var e := c[DIRENT * k..DIRENT * k + DIRENT];
    assert e[4..] == c[DIRENT * k + 4..DIRENT * k + DIRENT];
  }

  /** Writing a fresh binding in a free entry adds exactly that binding. */
  lemma BindAdds(c: seq<byte>, k: nat, ent: seq<byte>, ino: u32, name: Name)
    requires WellDir(c) && k <= Len(c) && |ent| == DIRENT
    requires k < Len(c) ==> EntIno(c, k) == 0
    requires GetU32(ent, 0) == ino && ino != 0 && CStr(ent[4..]) == name && IsName(name)
    requires name !in DirMap(c)
    ensures var c2 := Splice(c, DIRENT * k, ent);
      WellDir(c2) && DirMap(c2) == DirMap(c)[name := ino]
  {
    hide CStr, GetU32, EntIno, EntName, Splice, DirMap;
    var c2 := Splice(c, DIRENT * k, ent);
    forall j | 0 <= j < Len(c2)
      ensures j == k || j < Len(c)
      ensures EntIno(c2, j) == if j == k then ino else EntIno(c, j)
      ensures EntName(c2, j) == if j == k then name else EntName(c, j)
    {
      EntriesAfterWrite(c, k, ent, j);
    }
    SpliceLen(c, k, ent);
    forall j | 0 <= j < Len(c) && EntIno(c, j) != 0
      ensures EntName(c, j) != name
    {
      assert EntName(c, j) == name ==> BindsAt(c, j, name);
      LookupIsMap(c, j, name);
    }
    forall n
      ensures n in DirMap(c2) <==> n == name || n in DirMap(c)
      ensures n in DirMap(c2) ==> DirMap(c2)[n] == if n == name then ino else DirMap(c)[n]
    {
      BindingAfter(c, c2, k, n);
    }
  }

  lemma SpliceLen(c: seq<byte>, k: nat, ent: seq<byte>)
    requires |c| % DIRENT == 0 && k <= Len(c) && |ent| == DIRENT
    ensures var c2 := Splice(c, DIRENT * k, ent);
      |c2| % DIRENT == 0 && Len(c2) == if k == Len(c) then Len(c) + 1 else Len(c)
  {
  }

  /** What scanning finds is what the map says. */
  lemma LookupIsMap(c: seq<byte>, k: nat, name: Name)
    requires WellDir(c)
    ensures BindsAt(c, k, name) ==> name in DirMap(c) && DirMap(c)[name] == EntIno(c, k)
    ensures (forall j :: 0 <= j < Len(c) ==> !BindsAt(c, j, name)) ==> name !in DirMap(c)
  {
    hide EntIno, EntName;
    if BindsAt(c, k, name) {
      assert EntName(c, k) in DirMap(c);
    }
    if name in DirMap(c) {
      var j :| 0 <= j < Len(c) && EntIno(c, j) != 0 && EntName(c, j) == name;
      assert BindsAt(c, j, name);
    }
  }

  /** A name's binding in two directories that differ in entry `k` only. */
  lemma BindingAfter(c: seq<byte>, c2: seq<byte>, k: nat, name: Name)
    requires WellDir(c) && WellDir(c2) && k < Len(c2) && Len(c) <= Len(c2)
    requires forall j :: 0 <= j < Len(c2) && j != k ==>
      j < Len(c) && EntIno(c2, j) == EntIno(c, j) && EntName(c2, j) == EntName(c, j)
    requires k < Len(c) && EntIno(c, k) != 0 ==> EntIno(c2, k) == 0
    ensures BindsAt(c2, k, name) ==> name in DirMap(c2) && DirMap(c2)[name] == EntIno(c2, k)
    ensures BindsAt(c, k, name) ==> name !in DirMap(c2)
    ensures !BindsAt(c2, k, name) && !BindsAt(c, k, name) ==> (name in DirMap(c2) <==> name in DirMap(c))
    ensures !BindsAt(c2, k, name) && name in DirMap(c2) ==> name in DirMap(c) && DirMap(c2)[name] == DirMap(c)[name]
  {
    hide EntIno, EntName, DirMap;
    LookupIsMap(c2, k, name);
    if j :| 0 <= j < Len(c2) && j != k && BindsAt(c2, j, name) {
      LookupIsMap(c2, j, name);
      LookupIsMap(c, j, name);
    } else {
      assert forall j :: 0 <= j < Len(c2) && j != k ==> !BindsAt(c2, j, name);
      assert forall j :: 0 <= j < Len(c) && j != k && BindsAt(c, j, name) ==> BindsAt(c2, j, name);
      LookupIsMap(c, k, name);
    }
  }

  /** Clearing a bound entry removes exactly its binding. */
  lemma UnbindRemoves(c: seq<byte>, k: nat, name: Name)
    requires WellDir(c) && BindsAt(c, k, name)
    ensures var c2 := Splice(c, DIRENT * k, seq(DIRENT, _ => 0));
      WellDir(c2) && DirMap(c2) == DirMap(c) - {name}
  {
    hide CStr, GetU32, EntIno, EntName, Splice, DirMap;
    var ent: seq<byte> := seq(DIRENT, _ => 0);
    var c2 := Splice(c, DIRENT * k, ent);
    assert GetU32(ent, 0) == 0 by { ZeroWord(ent); }
    forall j | 0 <= j < Len(c2)
      ensures j == k || j < Len(c)
      ensures EntIno(c2, j) == if j == k then 0 else EntIno(c, j)
      ensures j != k ==> EntName(c2, j) == EntName(c, j)
    {
      EntriesAfterWrite(c, k, ent, j);
    }
    SpliceLen(c, k, ent);
    LookupIsMap(c, k, name);
    forall n
      ensures n in DirMap(c2) <==> n != name && n in DirMap(c)
      ensures n in DirMap(c2) ==> DirMap(c2)[n] == DirMap(c)[n]
    {
      BindingAfter(c, c2, k, n);
    }
  }

  lemma ZeroWord(b: seq<byte>)
    requires |b| >= 4 && forall x :: 0 <= x < 4 ==> b[x] == 0
    ensures GetU32(b, 0) == 0
  {
  }
}
