/** Resolving a path in an ext4 file system: directory records in the blocks of depth-0 extents, and the recursion
    from one directory to the next. */
module Ext4Path {
  import opened Wrappers

  type byte = x: int | 0 <= x < 256
  type Bytes = seq<byte>

  const SLASH: byte := 47

  // ----- Directory blocks -----

  datatype DirEntry = DirEntry(inode: nat, recLength: nat, fileType: nat, name: Bytes)

  function Little16(b: Bytes, i: nat): nat
    requires i + 2 <= |b|
  {
    (b[i] as int) + (b[i + 1] as int) * 0x100
  }

  /** The record at offset i of a block. */
  function EntryAt(block: Bytes, i: nat): DirEntry
    requires i + 8 <= |block| && i + 8 + block[i + 6] <= |block|
  {
    DirEntry(Little16(block, i) + Little16(block, i + 2) * 0x1_0000, Little16(block, i + 4), block[i + 7],
        block[i + 8..i + 8 + block[i + 6]])
  }

  /** A component of a path: not empty, without slash or end mark. */
  ghost predicate IsName(name: Bytes) {
    name != [] && SLASH !in name && 0 !in name
  }

  /** From offset i on, the block is a chain of records that ends with the block. */
  ghost predicate ChainFrom(block: Bytes, i: nat)
    decreases |block| - i
  {
    i == |block| ||
    (i + 8 <= |block| && i + 8 + block[i + 6] <= |block| &&
     var e := EntryAt(block, i);
     && 8 + |e.name| <= e.recLength && i + e.recLength <= |block| && (e.inode != 0 ==> IsName(e.name))
     && ChainFrom(block, i + e.recLength))
  }

  function EntriesFrom(block: Bytes, i: nat): seq<DirEntry>
    requires ChainFrom(block, i)
    decreases |block| - i
  {
    if i == |block| then [] else [EntryAt(block, i)] + EntriesFrom(block, i + EntryAt(block, i).recLength)
  }

  // ----- The file system -----

  datatype Kind = Directory | Regular | Other

  /** A leaf of the extent tree: count blocks from start. */
  datatype Leaf = Leaf(start: nat, count: nat)

  datatype INode = INode(kind: Kind, leaves: seq<Leaf>)

  datatype FileSystem = FileSystem(blocks: map<nat, Bytes>, inodes: map<nat, INode>) {
    /** Directories are well-formed, and a record of type 2 is that of a directory. */
    ghost predicate Valid() {
      && (forall n {:trigger n in inodes} :: n in inodes ==> 0 < n < 0x1_0000_0000)
      && (forall n, k {:trigger inodes[n].leaves[k]} ::
            n in inodes && inodes[n].kind == Directory && 0 <= k < |inodes[n].leaves| ==>
              IsDirectoryLeaf(inodes[n].leaves[k]))
    }

    ghost predicate IsDirectoryLeaf(l: Leaf) {
      forall b {:trigger b in blocks} :: l.start <= b < l.start + l.count ==> IsDirectoryBlock(b)
    }

    ghost predicate IsDirectoryBlock(b: nat) {
      && b in blocks && ChainFrom(blocks[b], 0)
      && forall e {:trigger e.inode} :: e in EntriesFrom(blocks[b], 0) && e.inode != 0 ==>
           e.inode in inodes && (e.fileType == 2 ==> inodes[e.inode].kind == Directory)
    }
  }

  function EntriesOfLeaf(fs: FileSystem, l: Leaf, from: nat): seq<DirEntry>
    requires fs.IsDirectoryLeaf(l) && from <= l.count
    decreases l.count - from
  {
    if from == l.count then []
    else
      assert fs.IsDirectoryBlock(l.start + from);
      EntriesFrom(fs.blocks[l.start + from], 0) + EntriesOfLeaf(fs, l, from + 1)
  }

  function EntriesOf(fs: FileSystem, leaves: seq<Leaf>): seq<DirEntry>
    requires forall k {:trigger leaves[k]} :: 0 <= k < |leaves| ==> fs.IsDirectoryLeaf(leaves[k])
  {
    if leaves == [] then [] else EntriesOfLeaf(fs, leaves[0], 0) + EntriesOf(fs, leaves[1..])
  }

  /** All records of a directory. */
  function DirEntries(fs: FileSystem, n: nat): seq<DirEntry>
    requires fs.Valid() && n in fs.inodes && fs.inodes[n].kind == Directory
  {
    EntriesOf(fs, fs.inodes[n].leaves)
  }

  // ----- What the code looks for -----

  /** A record matches if its name begins the path and is followed by the end, or by a slash if it is a directory. */
  predicate Matches(e: DirEntry, path: Bytes) {
    && e.inode != 0 && e.name <= path
    && (|path| == |e.name| || (path[|e.name|] == SLASH && e.fileType == 2))
  }

  function FirstMatch(es: seq<DirEntry>, path: Bytes): (r: Option<DirEntry>)
    ensures r.Some? ==> r.value in es && Matches(r.value, path)
  {
    if es == [] then None else if Matches(es[0], path) then Some(es[0]) else FirstMatch(es[1..], path)
  }

  lemma {:induction false} FirstMatchInBoth(a: seq<DirEntry>, b: seq<DirEntry>, path: Bytes)
    ensures FirstMatch(a + b, path) == if FirstMatch(a, path).Some? then FirstMatch(a, path) else FirstMatch(b, path)
  {
    if a == [] {
      assert a + b == b;
    } else {
      assert (a + b)[1..] == a[1..] + b;
      FirstMatchInBoth(a[1..], b, path);
    }
  }

  function Strip(path: Bytes): (r: Bytes)
    ensures |r| <= |path| && (r != [] ==> r[0] != SLASH) && r == path[|path| - |r|..]
  {
    if path != [] && path[0] == SLASH then Strip(path[1..]) else path
  }

  /** A signed 64-bit number as the bits of an unsigned one. */
  function Bits(x: int): nat
    requires -0x8000_0000_0000_0000 <= x
  {
    if x < 0 then x + 0x1_0000_0000_0000_0000 else x
  }

  function SetBit63(u: nat): nat { if u >= 0x8000_0000_0000_0000 then u else u + 0x8000_0000_0000_0000 }

  function ClearBit63(u: nat): nat { if u >= 0x8000_0000_0000_0000 then u - 0x8000_0000_0000_0000 else u }

  lemma DirEntriesAreGood(fs: FileSystem, n: nat, e: DirEntry)
    requires fs.Valid() && n in fs.inodes && fs.inodes[n].kind == Directory && e in DirEntries(fs, n) && e.inode != 0
    ensures e.inode in fs.inodes && (e.fileType == 2 ==> fs.inodes[e.inode].kind == Directory) && IsName(e.name)
  {
    EntriesAreGood(fs, fs.inodes[n].leaves, e);
  }

  lemma {:induction false} EntriesAreGood(fs: FileSystem, leaves: seq<Leaf>, e: DirEntry)
    requires forall k {:trigger leaves[k]} :: 0 <= k < |leaves| ==> fs.IsDirectoryLeaf(leaves[k])
    requires e in EntriesOf(fs, leaves) && e.inode != 0
    ensures e.inode in fs.inodes && (e.fileType == 2 ==> fs.inodes[e.inode].kind == Directory) && IsName(e.name)
  {
    if e in EntriesOfLeaf(fs, leaves[0], 0) {
      LeafEntriesAreGood(fs, leaves[0], 0, e);
    } else {
      EntriesAreGood(fs, leaves[1..], e);
    }
  }

  lemma {:induction false} LeafEntriesAreGood(fs: FileSystem, l: Leaf, from: nat, e: DirEntry)
    requires fs.IsDirectoryLeaf(l) && from <= l.count && e in EntriesOfLeaf(fs, l, from) && e.inode != 0
    ensures e.inode in fs.inodes && (e.fileType == 2 ==> fs.inodes[e.inode].kind == Directory) && IsName(e.name)
    decreases l.count - from
  {
    assert fs.IsDirectoryBlock(l.start + from);
    if e in EntriesFrom(fs.blocks[l.start + from], 0) {
      ChainEntriesAreNames(fs.blocks[l.start + from], 0, e);
    } else {
      LeafEntriesAreGood(fs, l, from + 1, e);
    }
  }

  lemma {:induction false} ChainEntriesAreNames(block: Bytes, i: nat, e: DirEntry)
    requires ChainFrom(block, i) && e in EntriesFrom(block, i) && e.inode != 0
    ensures IsName(e.name)
    decreases |block| - i
  {
    if e != EntryAt(block, i) {
      ChainEntriesAreNames(block, i + EntryAt(block, i).recLength, e);
    }
  }

  // ----- The code as a function -----

  /** getINodeNumber */
  function Resolve(fs: FileSystem, n: int, path: Bytes): (r: int)
    requires fs.Valid() && (n >= 1 ==> n in fs.inodes)
    ensures -1 <= r < 0x8000_0000_0000_0000
    decreases |path|
  {
    if n < 1 then -1
    else if n == 2 && path == [SLASH] then 2
    else match fs.inodes[n].kind
      case Directory =>
        (match FirstMatch(DirEntries(fs, n), Strip(path))
         case None => -1
         case Some(e) =>
           DirEntriesAreGood(fs, n, e);
           ClearBit63(SetBit63(Bits(Reach(fs, e, Strip(path))))))
      case Regular => n
      case Other => -1
  }

  /** What a matching record stands for: the rest of the path is nothing, one slash, or more. */
  function Reach(fs: FileSystem, e: DirEntry, path: Bytes): (r: int)
    requires fs.Valid() && Matches(e, path) && IsName(e.name) && e.inode in fs.inodes
    ensures -1 <= r < 0x8000_0000_0000_0000
    decreases |path|, 0
  {
    var rest := path[|e.name|..];
    if |rest| <= 1 then e.inode else Resolve(fs, e.inode, rest)
  }

  // ----- Component by component -----

  function UpToSlash(path: Bytes): (c: Bytes)
    ensures c <= path && SLASH !in c && (|c| < |path| ==> path[|c|] == SLASH)
  {
    if path == [] || path[0] == SLASH then [] else [path[0]] + UpToSlash(path[1..])
  }

  /** The names between slashes. One slash at the end adds nothing; more of them add an empty component. */
  function Components(path: Bytes): (cs: seq<Bytes>)
    ensures cs != [] && cs[0] == UpToSlash(Strip(path))
  {
    Parts(Strip(path))
  }

  function Parts(p: Bytes): (cs: seq<Bytes>)
    ensures cs != [] && cs[0] == UpToSlash(p)
    decreases |p|
  {
    var c := UpToSlash(p);
    if |p| - |c| <= 1 then [c] else [c] + Parts(Strip(p[|c|..]))
  }

  /** The path ends with exactly one slash. */
  predicate TrailingSlash(path: Bytes) {
    OneSlashLeft(Strip(path))
  }

  predicate OneSlashLeft(p: Bytes)
    decreases |p|
  {
    var c := UpToSlash(p);
    if |p| - |c| <= 1 then |p| - |c| == 1 else OneSlashLeft(Strip(p[|c|..]))
  }

  /** The first record in use with this name, or the first that is a directory if one is needed. */
  function Lookup(es: seq<DirEntry>, name: Bytes, directory: bool): (r: Option<DirEntry>)
    ensures r.Some? ==> r.value in es && r.value.inode != 0 && r.value.name == name && (directory ==>
        r.value.fileType == 2)
  {
    if es == [] then None
    else if es[0].inode != 0 && es[0].name == name && (directory ==> es[0].fileType == 2) then Some(es[0])
    else Lookup(es[1..], name, directory)
  }

  /** From directory n, one component after the other. */
  function Walk(fs: FileSystem, n: nat, cs: seq<Bytes>, slash: bool): Option<nat>
    requires fs.Valid() && n in fs.inodes && fs.inodes[n].kind == Directory && cs != []
    decreases |cs|
  {
    var e := Lookup(DirEntries(fs, n), cs[0], slash || |cs| > 1);
    if e.None? then None
    else
      DirEntriesAreGood(fs, n, e.value);
      if |cs| == 1 then Some(e.value.inode) else Walk(fs, e.value.inode, cs[1..], slash)
  }

  lemma MatchesIff(e: DirEntry, path: Bytes)
    requires e.inode != 0 ==> IsName(e.name)
    requires path != [] ==> path[0] != SLASH
    ensures Matches(e, path) <==> e.inode != 0 && e.name == UpToSlash(path) && (|path| > |e.name| ==> e.fileType == 2)
  {
    NoSlashInside(UpToSlash(path), path, |e.name|);
    NoSlashInside(e.name, path, |UpToSlash(path)|);
  }

  lemma NoSlashInside(c: Bytes, path: Bytes, k: nat)
    ensures c <= path && SLASH !in c && k < |c| ==> path[k] != SLASH
  {
    assert c <= path && k < |c| ==> path[k] == c[k] && c[k] in c;
  }

  lemma {:induction false} FirstMatchIsLookup(es: seq<DirEntry>, path: Bytes)
    requires forall e {:trigger e.inode} :: e in es && e.inode != 0 ==> IsName(e.name)
    requires path != [] ==> path[0] != SLASH
    ensures FirstMatch(es, path) == Lookup(es, UpToSlash(path), |path| > |UpToSlash(path)|)
  {
    if es != [] {
      MatchesIff(es[0], path);
      FirstMatchIsLookup(es[1..], path);
    }
  }

  lemma {:induction false} StripAgain(path: Bytes)
    ensures Strip([SLASH] + path) == Strip(path) && Components([SLASH] + path) == Components(path)
    ensures TrailingSlash([SLASH] + path) == TrailingSlash(path)
  {
    assert ([SLASH] + path)[1..] == path;
  }

  lemma ComponentsStep(path: Bytes)
    ensures var p, c := Strip(path), UpToSlash(Strip(path));
            if |p| - |c| <= 1 then Components(path) == [c] && TrailingSlash(path) == (|p| > |c|)
            else Components(path) == [c] + Components(p[|c|..]) && TrailingSlash(path) == TrailingSlash(p[|c|..])
  {
  }

  const LOST := 0x7FFF_FFFF_FFFF_FFFF

  /** The inode that the walk reaches; if it fails, -1 when the first component is missing and 2^63 - 1 when a later
      one is. */
  function WalkResult(fs: FileSystem, n: nat, cs: seq<Bytes>, slash: bool): (r: int)
    requires fs.Valid() && n in fs.inodes && fs.inodes[n].kind == Directory && cs != []
    ensures r >= -1
  {
    match Walk(fs, n, cs, slash)
    case Some(m) => m
    case None => if Lookup(DirEntries(fs, n), cs[0], slash || |cs| > 1).None? then -1 else LOST
  }

  lemma WalkResultStep(fs: FileSystem, n: nat, c: Bytes, cs: seq<Bytes>, slash: bool, e: DirEntry)
    requires fs.Valid() && n in fs.inodes && fs.inodes[n].kind == Directory && cs != []
    requires Lookup(DirEntries(fs, n), c, true) == Some(e)
    ensures e.inode in fs.inodes && fs.inodes[e.inode].kind == Directory
    ensures WalkResult(fs, n, [c] + cs, slash) == ClearBit63(SetBit63(Bits(WalkResult(fs, e.inode, cs, slash))))
  {
    DirEntriesAreGood(fs, n, e);
    assert ([c] + cs)[1..] == cs;
    if Walk(fs, e.inode, cs, slash).Some? {
      WalkIsInode(fs, e.inode, cs, slash);
    }
  }

  lemma {:induction false} WalkIsInode(fs: FileSystem, n: nat, cs: seq<Bytes>, slash: bool)
    requires fs.Valid() && n in fs.inodes && fs.inodes[n].kind == Directory && cs != []
    ensures Walk(fs, n, cs, slash).Some? ==> Walk(fs, n, cs, slash).value in fs.inodes
    decreases |cs|
  {
    var e := Lookup(DirEntries(fs, n), cs[0], slash || |cs| > 1);
    if e.Some? {
      DirEntriesAreGood(fs, n, e.value);
      if |cs| > 1 {
        WalkIsInode(fs, e.value.inode, cs[1..], slash);
      }
    }
  }

  lemma ResolveStep(fs: FileSystem, n: nat, path: Bytes)
    requires fs.Valid() && n in fs.inodes && fs.inodes[n].kind == Directory && !(n == 2 && path == [SLASH])
    ensures var p := Strip(path);
            var c := UpToSlash(p);
            match Lookup(DirEntries(fs, n), c, |p| > |c|)
            case None => Resolve(fs, n, path) == -1
            case Some(e) =>
              && e.inode in fs.inodes && (|p| > |c| ==> fs.inodes[e.inode].kind == Directory)
              && Resolve(fs, n, path) == ClearBit63(SetBit63(Bits(if |p| - |c| <= 1 then e.inode
                  else Resolve(fs, e.inode, p[|c|..]))))
  {
    hide SetBit63, ClearBit63, Bits, Strip, UpToSlash, FirstMatch, Lookup;
    MatchIsLookup(fs, n, Strip(path));
    var m := FirstMatch(DirEntries(fs, n), Strip(path));
    if m.Some? {
      DirEntriesAreGood(fs, n, m.value);
    }
  }

  /** getINodeNumber computes the component-by-component walk. */
  lemma {:induction false} ResolveIsWalk(fs: FileSystem, n: nat, path: Bytes)
    requires fs.Valid() && n in fs.inodes && fs.inodes[n].kind == Directory && !(n == 2 && path == [SLASH])
    ensures Resolve(fs, n, path) == WalkResult(fs, n, Components(path), TrailingSlash(path))
    decreases |path|
  {
    var p := Strip(path);
    var c := UpToSlash(p);
    ComponentsStep(path);
    ResolveStep(fs, n, path);
    var m := Lookup(DirEntries(fs, n), c, |p| > |c|);
    if m.Some? && |p| - |c| > 1 {
      ResolveIsWalk(fs, m.value.inode, p[|c|..]);
      WalkResultStep(fs, n, c, Components(p[|c|..]), TrailingSlash(p[|c|..]), m.value);
    }
  }

  lemma MatchIsLookup(fs: FileSystem, n: nat, p: Bytes)
    requires fs.Valid() && n in fs.inodes && fs.inodes[n].kind == Directory && (p != [] ==> p[0] != SLASH)
    ensures FirstMatch(DirEntries(fs, n), p) == Lookup(DirEntries(fs, n), UpToSlash(p), |p| > |UpToSlash(p)|)
  {
    forall e {:trigger e.inode} | e in DirEntries(fs, n) && e.inode != 0
      ensures IsName(e.name)
    {
      DirEntriesAreGood(fs, n, e);
    }
    FirstMatchIsLookup(DirEntries(fs, n), p);
  }

  // ----- Paths as they are written -----

  /** Names with slashes between them, and any number of slashes at the end. */
  function Render(cs: seq<Bytes>, end: Bytes): Bytes
    requires cs != []
  {
    if |cs| == 1 then cs[0] + end else cs[0] + ([SLASH] + Render(cs[1..], end))
  }

  ghost predicate Names(cs: seq<Bytes>) {
    cs == [] || (IsName(cs[0]) && Names(cs[1..]))
  }

  predicate Slashes(end: Bytes) {
    end == [] || (end[0] == SLASH && Slashes(end[1..]))
  }

  lemma {:induction false} UpToSlashIs(name: Bytes, rest: Bytes)
    requires SLASH !in name && (rest != [] ==> rest[0] == SLASH)
    ensures UpToSlash(name + rest) == name
  {
    if name != [] {
      assert (name + rest)[1..] == name[1..] + rest;
      UpToSlashIs(name[1..], rest);
    } else {
      assert name + rest == rest;
    }
  }

  lemma {:induction false} OnlySlashes(end: Bytes)
    requires Slashes(end)
    ensures Strip(end) == [] && Components(end) == [[]] && !TrailingSlash(end)
  {
    if end != [] {
      OnlySlashes(end[1..]);
    }
  }

  /** A written path has the components it was written from, unless it ends with more than one slash: then an empty
      one is added. */
  lemma {:induction false} ComponentsOfPath(cs: seq<Bytes>, end: Bytes)
    requires cs != [] && Names(cs)
    requires Slashes(end)
    ensures Components(Render(cs, end)) == if |end| <= 1 then cs else cs + [[]]
    ensures TrailingSlash(Render(cs, end)) <==> |end| == 1
  {
    if |cs| == 1 {
      LastName(cs, end);
    } else {
      ComponentsOfPath(cs[1..], end);
      FirstName(cs, end);
      HeadAndTail(cs, []);
    }
  }

  lemma LastName(cs: seq<Bytes>, end: Bytes)
    requires |cs| == 1 && Names(cs) && Slashes(end)
    ensures Components(Render(cs, end)) == if |end| <= 1 then cs else cs + [[]]
    ensures TrailingSlash(Render(cs, end)) <==> |end| == 1
  {
    FirstComponent(cs[0], end);
    OnlySlashes(end);
    assert [cs[0]] == cs;
  }

  lemma FirstName(cs: seq<Bytes>, end: Bytes)
    requires |cs| > 1 && Names(cs)
    ensures Components(Render(cs, end)) == [cs[0]] + Components(Render(cs[1..], end))
    ensures TrailingSlash(Render(cs, end)) == TrailingSlash(Render(cs[1..], end))
  {
    RenderIsLong(cs[1..], end);
    NextComponent(cs[0], Render(cs[1..], end));
  }

  lemma HeadAndTail(cs: seq<Bytes>, last: Bytes)
    requires cs != []
    ensures [cs[0]] + cs[1..] == cs && [cs[0]] + (cs[1..] + [last]) == cs + [last]
  {
  }

  lemma RenderIsLong(cs: seq<Bytes>, end: Bytes)
    requires cs != [] && Names(cs)
    ensures |Render(cs, end)| > 0
  {
  }

  lemma NextComponent(name: Bytes, rest: Bytes)
    requires IsName(name) && rest != []
    ensures Components(name + ([SLASH] + rest)) == [name] + Components(rest)
    ensures TrailingSlash(name + ([SLASH] + rest)) == TrailingSlash(rest)
  {
    FirstComponent(name, [SLASH] + rest);
    StripAgain(rest);
  }

  lemma FirstComponent(name: Bytes, rest: Bytes)
    requires IsName(name) && (rest != [] ==> rest[0] == SLASH)
    ensures if |rest| <= 1 then Components(name + rest) == [name] && TrailingSlash(name + rest) == (|rest| == 1)
            else && Components(name + rest) == [name] + Components(rest)
                 && TrailingSlash(name + rest) == TrailingSlash(rest)
  {
    hide Strip, Components, Parts, TrailingSlash, OneSlashLeft, UpToSlash;
    StripName(name, rest);
    UpToSlashIs(name, rest);
    ComponentsStep(name + rest);
    assert (name + rest)[|name|..] == rest;
  }

  lemma StripName(name: Bytes, rest: Bytes)
    requires IsName(name)
    ensures Strip(name + rest) == name + rest
  {
    assert (name + rest)[0] == name[0] && name[0] in name;
  }

  lemma {:induction false} EmptyNameIsNoEntry(es: seq<DirEntry>, directory: bool)
    requires forall e {:trigger e.inode} :: e in es && e.inode != 0 ==> IsName(e.name)
    ensures Lookup(es, [], directory).None?
  {
    if es != [] {
      assert es[0].inode != 0 ==> IsName(es[0].name);
      EmptyNameIsNoEntry(es[1..], directory);
    }
  }

  lemma {:induction false} WalkToEmptyName(fs: FileSystem, n: nat, cs: seq<Bytes>)
    requires fs.Valid() && n in fs.inodes && fs.inodes[n].kind == Directory && cs != [] && cs[|cs| - 1] == []
    ensures Walk(fs, n, cs, false).None?
    decreases |cs|
  {
    var es := DirEntries(fs, n);
    forall e {:trigger e.inode} | e in es && e.inode != 0
      ensures IsName(e.name)
    {
      DirEntriesAreGood(fs, n, e);
    }
    if |cs| == 1 {
      EmptyNameIsNoEntry(es, false);
    } else {
      var e := Lookup(es, cs[0], true);
      if e.Some? {
        DirEntriesAreGood(fs, n, e.value);
        WalkToEmptyName(fs, e.value.inode, cs[1..]);
      }
    }
  }

  /** With at most one slash at the end, a written path leads to the inode of the walk over its names; with more, it
      leads nowhere, even if every name exists. */
  lemma PathLeadsToWalk(fs: FileSystem, n: nat, cs: seq<Bytes>, end: Bytes)
    requires fs.Valid() && n in fs.inodes && fs.inodes[n].kind == Directory
    requires cs != [] && Names(cs)
    requires Slashes(end)
    ensures |end| <= 1 ==> Resolve(fs, n, Render(cs, end)) == WalkResult(fs, n, cs, |end| == 1)
    ensures |end| > 1 ==> Resolve(fs, n, Render(cs, end)) == if Lookup(DirEntries(fs, n), cs[0], true).None? then -1
        else LOST
  {
    var path := Render(cs, end);
    assert path[0] == cs[0][0];
    assert path != [SLASH] by {
      assert cs[0][0] in cs[0];
    }
    ComponentsOfPath(cs, end);
    ResolveIsWalk(fs, n, path);
    if |end| > 1 {
      WalkToEmptyName(fs, n, cs + [[]]);
      assert (cs + [[]])[0] == cs[0];
    }
  }

  // ----- The code -----

  /** Comparing a name with the beginning of the path, up to and with its end mark. */
  method StartsWith(path: Bytes, name: Bytes) returns (same: bool)
    requires 0 !in name && 0 !in path
    ensures same <==> name <= path
  {
    for j := 0 to |name|
      invariant j <= |path| && name[..j] == path[..j]
    {
      assert name <= path ==> j < |path| && name[j] == path[j];
      if (if j < |path| then path[j] else 0) != name[j] {
        return false;
      }
    }
    return true;
  }

  /** The bits that a matching record leaves in the context. */
  function Signal(x: int): nat
    requires -1 <= x
  {
    SetBit63(Bits(x))
  }

  /** What the search of some records must answer. */
  ghost predicate Answers(fs: FileSystem, es: seq<DirEntry>, path: Bytes, found: bool, context: nat)
    requires fs.Valid()
  {
    match FirstMatch(es, path)
    case None => !found
    case Some(e) => IsName(e.name) && e.inode in fs.inodes && found && context == Signal(Reach(fs, e, path))
  }

  /** lookForFile for one block: every record from the start of the block. */
  method SearchBlock(fs: FileSystem, b: nat, path: Bytes, address: nat) returns (found: bool, context: nat)
    requires fs.Valid() && fs.IsDirectoryBlock(b) && 0 !in path && (path != [] ==> path[0] != SLASH)
        && address + |path| < 0x8000_0000_0000_0000
    ensures Answers(fs, EntriesFrom(fs.blocks[b], 0), path, found, context)
    decreases |path|, 1
  {
    var block := fs.blocks[b];
    var i := 0;
    context := address;
    while i < |block|
      invariant i <= |block| && ChainFrom(block, i) && GoodFrom(fs, block, i)
      invariant FirstMatch(EntriesFrom(block, 0), path) == FirstMatch(EntriesFrom(block, i), path)
      decreases |block| - i
    {
      SearchStep(fs, block, i, path);
      var e := EntryAt(block, i);
      i := i + e.recLength;
      if e.inode == 0 {
        continue;
      }
      var same := StartsWith(path, e.name);
      if !same {
        continue;
      }
      if |path| == |e.name| {
        return true, Signal(e.inode);
      } else if path[|e.name|] == SLASH && e.fileType == 2 {
        context := Follow(fs, e, path, address);
        return true, context;
      }
    }
    found := false;
  }

  /** A directory has been found: either the path ends after its slash, or the search goes on inside it. */
  method Follow(fs: FileSystem, e: DirEntry, path: Bytes, address: nat) returns (context: nat)
    requires fs.Valid() && Matches(e, path) && |path| > |e.name| && IsName(e.name) && e.inode in fs.inodes
    requires 0 !in path && address + |path| < 0x8000_0000_0000_0000
    ensures context == Signal(Reach(fs, e, path))
    decreases |path|, 0
  {
    var rest := path[|e.name|..];
    if |rest| == 1 {
      return Signal(e.inode);
    }
    var r := GetINodeNumber(fs, rest, address + |e.name|, e.inode);
    return Signal(r);
  }

  /** Records in use from offset i on belong to existing inodes. */
  ghost predicate GoodFrom(fs: FileSystem, block: Bytes, i: nat)
    requires ChainFrom(block, i)
  {
    forall e {:trigger e.inode} :: e in EntriesFrom(block, i) && e.inode != 0 ==> e.inode in fs.inodes
  }

  lemma SearchStep(fs: FileSystem, block: Bytes, i: nat, path: Bytes)
    requires i < |block| && ChainFrom(block, i) && GoodFrom(fs, block, i)
    ensures var e := EntryAt(block, i);
            && i + 8 + |e.name| <= i + e.recLength <= |block| && ChainFrom(block, i + e.recLength)
                && GoodFrom(fs, block, i + e.recLength)
            && FirstMatch(EntriesFrom(block, i), path)
               == (if Matches(e, path) then Some(e) else FirstMatch(EntriesFrom(block, i + e.recLength), path))
            && (e.inode != 0 ==> IsName(e.name) && e.inode in fs.inodes)
  {
    var e := EntryAt(block, i);
    var rest := EntriesFrom(block, i + e.recLength);
    assert EntriesFrom(block, i) == [e] + rest;
    assert ([e] + rest)[1..] == rest;
    assert e in [e] + rest;
  }

  lemma LeafStep(fs: FileSystem, l: Leaf, k: nat, b: nat, path: Bytes)
    requires fs.IsDirectoryLeaf(l) && k < l.count && b == l.start + k
    ensures fs.IsDirectoryBlock(b)
    ensures var first := FirstMatch(EntriesFrom(fs.blocks[b], 0), path);
            FirstMatch(EntriesOfLeaf(fs, l, k), path) == if first.Some? then first
                else FirstMatch(EntriesOfLeaf(fs, l, k + 1), path)
  {
    assert fs.IsDirectoryBlock(b);
    var es, rest := EntriesFrom(fs.blocks[b], 0), EntriesOfLeaf(fs, l, k + 1);
    FirstMatchInBoth(es, rest, path);
    assert EntriesOfLeaf(fs, l, k) == es + rest;
  }

  /** lookForFile for one leaf of the extent tree. */
  method LookForFile(fs: FileSystem, l: Leaf, path: Bytes, address: nat) returns (found: bool, context: nat)
    requires fs.Valid() && fs.IsDirectoryLeaf(l) && 0 !in path && (path != [] ==> path[0] != SLASH)
        && address + |path| < 0x8000_0000_0000_0000
    ensures Answers(fs, EntriesOfLeaf(fs, l, 0), path, found, context)
    decreases |path|, 2
  {
    for k := 0 to l.count
      invariant FirstMatch(EntriesOfLeaf(fs, l, 0), path) == FirstMatch(EntriesOfLeaf(fs, l, k), path)
    {
      var b := l.start + k;
      LeafStep(fs, l, k, b, path);
      found, context := SearchBlock(fs, b, path, address);
      if found {
        return;
      }
    }
    return false, address;
  }

  /** travelFile of a directory: leaf after leaf. */
  method TravelFile(fs: FileSystem, n: nat, path: Bytes, address: nat) returns (found: bool, context: nat)
    requires fs.Valid() && n in fs.inodes && fs.inodes[n].kind == Directory
    requires 0 !in path && (path != [] ==> path[0] != SLASH) && address + |path| < 0x8000_0000_0000_0000
    ensures Answers(fs, DirEntries(fs, n), path, found, context) && (!found ==> context == address)
    decreases |path|, 3
  {
    var leaves := fs.inodes[n].leaves;
    for k := 0 to |leaves|
      invariant FirstMatch(EntriesOf(fs, leaves), path) == FirstMatch(EntriesOf(fs, leaves[k..]), path)
    {
      assert leaves[k..][1..] == leaves[k + 1..];
      FirstMatchInBoth(EntriesOfLeaf(fs, leaves[k], 0), EntriesOf(fs, leaves[k + 1..]), path);
      found, context := LookForFile(fs, leaves[k], path, address);
      if found {
        return;
      }
    }
    return false, address;
  }

  method SkipSlashes(path: Bytes) returns (at: nat)
    ensures at <= |path| && path[at..] == Strip(path)
  {
    at := 0;
    while at < |path| && path[at] == SLASH
      invariant at <= |path| && Strip(path) == Strip(path[at..])
    {
      assert path[at..][1..] == path[at + 1..];
      at := at + 1;
    }
  }

  /** getINodeNumber. The context first holds the address of the path; bit 63 tells whether a record was found. */
  method GetINodeNumber(fs: FileSystem, path: Bytes, address: nat, n: int) returns (r: int)
    requires fs.Valid() && (n >= 1 ==> n in fs.inodes) && 0 !in path && address + |path| < 0x8000_0000_0000_0000
    ensures r == Resolve(fs, n, path)
    decreases |path|, 4
  {
    if n < 1 {
      return -1;
    }
    if n == 2 && path == [SLASH] {
      return 2;
    }
    match fs.inodes[n].kind {
      case Directory =>
        var at := SkipSlashes(path);
        var found, context := TravelFile(fs, n, path[at..], address + at);
        if context >= 0x8000_0000_0000_0000 {
          return ClearBit63(context);
        }
        return -1;
      case Regular => return n;
      case Other => return -1;
    }
  }

  /** implExists compares the result as an unsigned number, so it says yes to every path. */
  method ImplExists(fs: FileSystem, path: Bytes, address: nat) returns (answer: bool)
    requires fs.Valid() && 2 in fs.inodes && fs.inodes[2].kind == Directory && 0 !in path
        && address + |path| < 0x8000_0000_0000_0000
    ensures answer
  {
    var r := GetINodeNumber(fs, path, address, 2);
    if r == 0 {
      ResolveIsNotZero(fs, 2, path);
    }
    return Bits(r) >= 1;
  }

  lemma {:induction false} ResolveIsNotZero(fs: FileSystem, n: int, path: Bytes)
    requires fs.Valid() && (n >= 1 ==> n in fs.inodes)
    ensures Resolve(fs, n, path) != 0
    decreases |path|
  {
    if n >= 1 && !(n == 2 && path == [SLASH]) && fs.inodes[n].kind == Directory {
      var m := FirstMatch(DirEntries(fs, n), Strip(path));
      if m.Some? {
        DirEntriesAreGood(fs, n, m.value);
        if |Strip(path)| - |m.value.name| > 1 {
          ResolveIsNotZero(fs, m.value.inode, Strip(path)[|m.value.name|..]);
        }
      }
    }
  }
}
