/** Path names: splitPathName, namei's walk from the current directory,
    open and makeFSObj. */
module Paths {
  import opened Outcomes
  import opened Text
  import opened INodes
  import opened BlockMaps
  import opened Volumes
  import opened InodeMaps
  import opened FileSystems
  import opened Files

  // ---------------------------------------------------------------------
  // splitPathName

  /** splitPathName(path): the components before the last '/' joined
      again, None when that is empty, and the last component. */
  function SplitPathName(path: string): (Option<string>, string) {
    var parts := Split(path, '/');
    var prefix := Join(parts[..|parts| - 1], '/');
    (if prefix == "" then None else Some(prefix), parts[|parts| - 1])
  }

  lemma {:induction false} JoinLast(init: seq<string>, last: string, sep: char)
    ensures Join(init + [last], sep) == if init == [] then last else Join(init, sep) + [sep] + last
    decreases |init|
  {
    if |init| > 1 {
      assert (init + [last])[1..] == init[1..] + [last];
      JoinLast(init[1..], last, sep);
    } else if |init| == 1 {
      assert (init + [last])[1..] == [last];
    }
  }

  /** The last component holds no '/', and putting the two halves back
      together gives the path again (a path "/name" has no prefix). */
  lemma SplitPathNameJoin(path: string)
    ensures '/' !in SplitPathName(path).1
    ensures SplitPathName(path).0.Some? ==> SplitPathName(path).0.value + "/" + SplitPathName(path).1 == path
    ensures SplitPathName(path).0.None? ==> path == SplitPathName(path).1 || path == "/" + SplitPathName(path).1
  {
    var parts := Split(path, '/');
    var init := parts[..|parts| - 1];
    var last := parts[|parts| - 1];
    assert parts == init + [last];
    JoinSplit(path, '/');
    JoinLast(init, last, '/');
  }

  /** The components of the path are the prefix's components and the last
      one; without a prefix they are the last one alone, or after an empty
      first component. */
  lemma SplitPathNameWords(path: string)
    ensures SplitPathName(path).0.Some? ==>
      Split(path, '/') == Split(SplitPathName(path).0.value, '/') + [SplitPathName(path).1]
    ensures SplitPathName(path).0.None? ==>
      Split(path, '/') == [SplitPathName(path).1] || Split(path, '/') == ["", SplitPathName(path).1]
  {
    var parts := Split(path, '/');
    var init := parts[..|parts| - 1];
    assert parts == init + [parts[|parts| - 1]];
    if init != [] {
      SplitJoin(init, '/');
    }
  }

  // ---------------------------------------------------------------------
  // namei

  /** What a walk keeps: the bitmap's size and its set bits, and every
      inode but for its block pointers. */
  predicate Keeps(v: Vol, w: Vol) {
    && |w.bits| == |v.bits| && (forall i :: 0 <= i < |v.bits| && v.bits[i] ==> w.bits[i])
    && |w.inodes| == |v.inodes|
    && forall i :: 0 <= i < |v.inodes| ==> w.inodes[i] == v.inodes[i].(blockPtrs := w.inodes[i].blockPtrs)
  }

  /** Every inode has the type it had. */
  predicate SameTypes(v: Vol, w: Vol) {
    |w.inodes| == |v.inodes| && forall i :: 0 <= i < |v.inodes| ==> w.inodes[i].flags == v.inodes[i].flags
  }

  lemma GrowsKeeps(u: Vol, v: Vol, w: Vol, inum: int)
    requires Keeps(u, v) && Grows(v, w, inum) && 0 <= inum < |v.inodes|
    ensures Keeps(u, w)
  {
  }

  lemma KeepsTypes(v: Vol, w: Vol)
    requires Keeps(v, w)
    ensures SameTypes(v, w)
  {
    forall i | 0 <= i < |v.inodes| ensures w.inodes[i].flags == v.inodes[i].flags {
      assert w.inodes[i] == v.inodes[i].(blockPtrs := w.inodes[i].blockPtrs);
    }
  }

  /** Where a walk ends: an inode and its parent, or None. */
  type Place = Option<(int, Option<int>)>

  /** namei's loop from node (with parent): at each component the node
      must be a directory, which is read afresh, and the component is its
      child; a node that is not a directory, or a missing name, gives
      None. */
  function Walk(ctx: Ctx, v: Vol, node: int, parent: Option<int>, words: seq<string>): (r: Result<(Place, Vol)>)
    requires 0 <= node < |v.inodes| && ctx.blockSize > 0
    ensures r.Ok? ==> Keeps(v, r.value.1)
    ensures r.Ok? && r.value.0.Some? ==> 0 <= r.value.0.value.0 < |v.inodes|
    ensures r.Ok? && r.value.0.Some? && words != [] ==>
      var p := r.value.0.value.1;
      p.Some? && 0 <= p.value < |v.inodes| && IsDirectory(r.value.1.inodes[p.value])
    decreases |words|
  {
    if words == [] then Ok((Some((node, parent)), v))
    else if !IsDirectory(v.inodes[node]) then Ok((None, v))
    else match ReadDirectory(ctx, v, node)
      case Err(f) => Err(f)
      case Ok(got) =>
        var cs := got.0;
        var w := got.1;
        match Lookup(cs, words[0])
        case None => Ok((None, w))
        case Some(k) =>
          if k == NoKid then Err(LookupFault)
          else
            LookupKidIn(cs, words[0], |v.inodes|);
            Walk(ctx, w, k.inum, Some(node), words[1..])
  }

  /** A child found in a map of table inodes is a table inode. */
  lemma LookupKidIn(cs: Children, name: string, n: int)
    requires KidsIn(cs, n) && Lookup(cs, name).Some?
    ensures KidIn(Lookup(cs, name).value, n)
  {
    var k := Lookup(cs, name).value;
    var i :| 0 <= i < |cs| && cs[i] == (name, k);
    assert KidIn(cs[i].1, n);
  }

  /** A walk over a + b is the walk over a, then, from where it ends, the
      walk over b. */
  lemma {:induction false} WalkAppend(ctx: Ctx, v: Vol, node: int, parent: Option<int>, a: seq<string>, b: seq<string>)
    requires 0 <= node < |v.inodes| && ctx.blockSize > 0
    ensures Walk(ctx, v, node, parent, a + b) ==
      match Walk(ctx, v, node, parent, a)
      case Err(f) => Err(f)
      case Ok(got) =>
        if got.0.None? then Ok((None, got.1))
        else Walk(ctx, got.1, got.0.value.0, got.0.value.1, b)
    decreases |a|
  {
    if a == [] {
      assert a + b == b;
    } else {
      assert (a + b)[0] == a[0] && (a + b)[1..] == a[1..] + b;
      if IsDirectory(v.inodes[node]) {
        match ReadDirectory(ctx, v, node)
        case Err(_) =>
        case Ok(got) =>
          match Lookup(got.0, a[0])
          case None =>
          case Some(k) =>
            if k != NoKid {
              LookupKidIn(got.0, a[0], |v.inodes|);
              WalkAppend(ctx, got.1, k.inum, Some(node), a[1..], b);
            }
      }
    }
  }

  /** namei(path): from the current directory, the parent the current
      directory was opened with; no path gives the current directory
      itself. With no current directory set there is no inode to start
      from. */
  function NameI(ctx: Ctx, v: Vol, cwd: Option<int>, cwdParent: Option<int>, path: Option<string>)
    : (r: Result<(Place, Vol)>)
    requires ctx.blockSize > 0 && (cwd.Some? ==> 0 <= cwd.value < |v.inodes|)
    ensures r.Ok? ==> Keeps(v, r.value.1)
    ensures r.Ok? && r.value.0.Some? ==> 0 <= r.value.0.value.0 < |v.inodes|
  {
    if cwd.None? then Err(LookupFault)
    else if path.None? then Ok((Some((cwd.value, cwdParent)), v))
    else Walk(ctx, v, cwd.value, cwdParent, Split(path.value, '/'))
  }

  /** What the path operations need of a file system: a block size, and a
      current directory that is an inode of the table. */
  predicate Ready(fs: FileSystem)
    reads fs, fs.inodeMap
  {
    fs.master.blockSize > 0 && (fs.cwd.Some? ==> 0 <= fs.cwd.value < |fs.inodeMap.inodes|)
  }

  /** One component of namei: the child of directory node named word, None
      when node is no directory or has no such child. */
  method WalkStep(fs: FileSystem, node: int, parent: Option<int>, word: string, ghost rest: seq<string>)
    returns (r: Result<Option<int>>)
    requires fs.master.blockSize > 0 && 0 <= node < |fs.inodeMap.inodes|
    modifies fs`cache, fs.blockMap, fs.inodeMap
    ensures fs.Context() == old(fs.Context())
    ensures r.Ok? ==> Grows(old(fs.State()), fs.State(), node)
    ensures r.Err? ==> Walk(fs.Context(), old(fs.State()), node, parent, [word] + rest) == Err(r.fault)
    ensures r.Ok? && r.value.None? ==>
      Walk(fs.Context(), old(fs.State()), node, parent, [word] + rest) == Ok((None, fs.State()))
    ensures r.Ok? && r.value.Some? ==>
      && 0 <= r.value.value < |fs.inodeMap.inodes|
      && Walk(fs.Context(), old(fs.State()), node, parent, [word] + rest)
         == Walk(fs.Context(), fs.State(), r.value.value, Some(node), rest)
  {
    ghost var v := fs.State();
    assert ([word] + rest)[0] == word && ([word] + rest)[1..] == rest;
    if !IsDirectory(fs.inodeMap.inodes[node]) {
      return Ok(None);
    }
    var dir := new Directory(fs, node, parent);
    var kids := dir.GetChildren();
    if kids.Err? {
      return Err(kids.fault);
    }
    var k := Lookup(kids.value, word);
    if k.None? {
      return Ok(None);
    }
    if k.value == NoKid {
      return Err(LookupFault);
    }
    LookupKidIn(kids.value, word, |v.inodes|);
    r := Ok(Some(k.value.inum));
  }

  /** namei(path) on fs: one Directory per component, read from disk. */
  method Namei(fs: FileSystem, path: Option<string>) returns (r: Result<Place>)
    requires Ready(fs)
    modifies fs`cache, fs.blockMap, fs.inodeMap
    ensures r.Ok? ==> Ready(fs)
    ensures NameI(fs.Context(), old(fs.State()), fs.cwd, fs.cwdParent, path)
         == if r.Ok? then Ok((r.value, fs.State())) else Err(r.fault)
  {
    if fs.cwd.None? {
      return Err(LookupFault);
    }
    var node := fs.cwd.value;
    var parent := fs.cwdParent;
    if path.None? {
      return Ok(Some((node, parent)));
    }
    var words := Split(path.value, '/');
    ghost var ctx := fs.Context();
    ghost var v0 := fs.State();
    var i := 0;
    while i < |words|
      invariant 0 <= i <= |words| && 0 <= node < |fs.inodeMap.inodes| && fs.Context() == ctx
      invariant Keeps(v0, fs.State())
      invariant NameI(ctx, v0, fs.cwd, fs.cwdParent, path) == Walk(ctx, fs.State(), node, parent, words[i..])
    {
      assert words[i..] == [words[i]] + words[i + 1..];
      ghost var v := fs.State();
      var next := WalkStep(fs, node, parent, words[i], words[i + 1..]);
      if next.Err? {
        return Err(next.fault);
      }
      GrowsKeeps(v0, v, fs.State(), node);
      if next.value.None? {
        return Ok(None);
      }
      parent := Some(node);
      node := next.value.value;
      i := i + 1;
    }
    r := Ok(Some((node, parent)));
  }

  // ---------------------------------------------------------------------
  // open

  /** open(path, mode): the inode namei finds, when it is a file, with
      its parent; None for a missing path or one that is not a file. */
  function OpenTarget(ctx: Ctx, v: Vol, cwd: Option<int>, cwdParent: Option<int>, path: Option<string>)
    : (r: Result<(Place, Vol)>)
    requires ctx.blockSize > 0 && (cwd.Some? ==> 0 <= cwd.value < |v.inodes|)
    ensures r.Ok? ==> Keeps(v, r.value.1)
    ensures r.Ok? && r.value.0.Some? ==>
      0 <= r.value.0.value.0 < |v.inodes| && IsFile(r.value.1.inodes[r.value.0.value.0])
    ensures r.Ok? ==> NameI(ctx, v, cwd, cwdParent, path).Ok?
    ensures r.Ok? && NameI(ctx, v, cwd, cwdParent, path).value.0.Some? ==>
      (r.value.0.Some? <==> IsFile(r.value.1.inodes[NameI(ctx, v, cwd, cwdParent, path).value.0.value.0]))
    ensures r.Err? <==> NameI(ctx, v, cwd, cwdParent, path).Err?
  {
    match NameI(ctx, v, cwd, cwdParent, path)
    case Err(f) => Err(f)
    case Ok(got) =>
      if got.0.None? || !IsFile(got.1.inodes[got.0.value.0]) then Ok((None, got.1))
      else Ok(got)
  }

  /** open on fs: a File at offset 0 on the inode OpenTarget finds. The
      mode is not looked at. */
  method Open(fs: FileSystem, path: Option<string>, mode: string) returns (r: Result<Option<File>>)
    requires Ready(fs)
    modifies fs`cache, fs.blockMap, fs.inodeMap
    ensures r.Ok? ==> Ready(fs)
    ensures OpenTarget(fs.Context(), old(fs.State()), fs.cwd, fs.cwdParent, path)
         == if r.Err? then Err(r.fault)
            else if r.value.None? then Ok((None, fs.State()))
            else Ok((Some((r.value.value.inum, r.value.value.parent)), fs.State()))
    ensures r.Ok? && r.value.Some? ==>
      fresh(r.value.value) && r.value.value.fs == fs && r.value.value.offset == 0
  {
    var found := Namei(fs, path);
    if found.Err? {
      return Err(found.fault);
    }
    if found.value.None? || !IsFile(fs.inodeMap.inodes[found.value.value.0]) {
      return Ok(None);
    }
    var f := new File(fs, found.value.value.0, found.value.value.1);
    r := Ok(Some(f));
  }

  // ---------------------------------------------------------------------
  // makeFSObj

  /** makeFSObj(path, newType): namei on the prefix must give a directory
      (anything else leaves the volume as the reads left it); a name it
      already holds is rejected; otherwise an inode of the type is
      allocated (its index -1, when none is, is the table's last inode),
      added to a fresh copy of the directory and, for "d", given "." and
      "..". None of the three maps is written back. */
  function MakeNode(ctx: Ctx, v: Vol, cwd: Option<int>, cwdParent: Option<int>, count: int, path: string, newType: string)
    : (r: Result<Vol>)
    requires ctx.blockSize > 0 && (cwd.Some? ==> 0 <= cwd.value < |v.inodes|)
  {
    var (prefix, name) := SplitPathName(path);
    match NameI(ctx, v, cwd, cwdParent, prefix)
    case Err(f) => Err(f)
    case Ok(found) =>
      var w := found.1;
      if found.0.None? then Ok(w)
      else
        var d := found.0.value.0;
        if !IsDirectory(w.inodes[d]) then Ok(w)
        else match ReadDirectory(ctx, w, d)
          case Err(f) => Err(f)
          case Ok(got) =>
            var (cs, w1) := got;
            if name in Names(cs) then Ok(w1)
            else AddNode(ctx, w1, d, cs, count, name, newType)
  }

  /** The part of makeFSObj after the name check, on directory d whose
      map is cs. */
  function AddNode(ctx: Ctx, v: Vol, d: int, cs: Children, count: int, name: string, newType: string): (r: Result<Vol>)
    requires ctx.blockSize > 0 && 0 <= d < |v.inodes|
  {
    match AllocateInodeRule(v.inodes, count, newType)
    case Err(f) => Err(f)
    case Ok(alloc) =>
      var w := v.(inodes := alloc.1);
      match PyIndex(alloc.0, |alloc.1|)
      case None => Err(IndexFault)
      case Some(j) => LinkNode(ctx, w, d, cs, name, newType, j)
  }

  /** The end of makeFSObj: the new inode j joins directory d under name
      and, for "d", gets "." (itself) and ".." (d). */
  function LinkNode(ctx: Ctx, v: Vol, d: int, cs: Children, name: string, newType: string, j: int): (r: Result<Vol>)
    requires ctx.blockSize > 0 && 0 <= d < |v.inodes| && 0 <= j < |v.inodes|
  {
    match AddChildTo(ctx, v, d, Some(cs), name, Some(j))
    case Err(f) => Err(f)
    case Ok(added) =>
      if newType != "d" then Ok(added.1)
      else DotEntries(ctx, added.1, j, d)
  }

  /** A new directory j, child of d, gets "." (itself) and then ".." (d)
      in a map of its own. */
  function DotEntries(ctx: Ctx, v: Vol, j: int, d: int): (r: Result<Vol>)
    requires ctx.blockSize > 0 && 0 <= d < |v.inodes| && 0 <= j < |v.inodes|
  {
    match AddChildTo(ctx, v, j, None, ".", Some(j))
    case Err(f) => Err(f)
    case Ok(dot) =>
      match AddChildTo(ctx, dot.1, j, Some(dot.0), "..", Some(d))
      case Err(f) => Err(f)
      case Ok(dotdot) => Ok(dotdot.1)
  }

  /** At most one inode changes type, from FREE to t. */
  predicate OneAllocated(v: Vol, w: Vol, t: INodeType) {
    && |w.inodes| == |v.inodes|
    && forall i :: 0 <= i < |v.inodes| && w.inodes[i].flags != v.inodes[i].flags ==>
      && v.inodes[i].flags == FREE && w.inodes[i].flags == t
      && forall j :: 0 <= j < |v.inodes| && j != i ==> w.inodes[j].flags == v.inodes[j].flags
  }

  lemma GrowsTypes(v: Vol, w: Vol, inum: int)
    requires Grows(v, w, inum) && 0 <= inum < |v.inodes|
    ensures SameTypes(v, w)
  {
    assert w.inodes[inum] == v.inodes[inum].(blockPtrs := w.inodes[inum].blockPtrs);
  }

  lemma SameThenOne(u: Vol, v: Vol, w: Vol, t: INodeType)
    requires SameTypes(u, v) && OneAllocated(v, w, t)
    ensures OneAllocated(u, w, t)
  {
  }

  lemma OneThenSame(u: Vol, v: Vol, w: Vol, t: INodeType)
    requires OneAllocated(u, v, t) && SameTypes(v, w)
    ensures OneAllocated(u, w, t)
  {
  }

  /** AddNode changes the type of the allocated inode only, and for a tag
      that names no type, of none. */
  lemma AddNodeTypes(ctx: Ctx, v: Vol, d: int, cs: Children, count: int, name: string, newType: string)
    requires ctx.blockSize > 0 && 0 <= d < |v.inodes|
    requires AddNode(ctx, v, d, cs, count, name, newType).Ok?
    ensures TagType(newType).None? ==> SameTypes(v, AddNode(ctx, v, d, cs, count, name, newType).value)
    ensures TagType(newType).Some? ==> OneAllocated(v, AddNode(ctx, v, d, cs, count, name, newType).value, TagType(newType).value)
  {
    var alloc := AllocateInodeRule(v.inodes, count, newType).value;
    var w := v.(inodes := alloc.1);
    var j := PyIndex(alloc.0, |alloc.1|).value;
    LinkNodeTypes(ctx, w, d, cs, name, newType, j);
    if alloc.0 == -1 {
      assert alloc.1 == v.inodes;
    } else {
      assert TagType(newType).Some?;
      assert OneAllocated(v, w, TagType(newType).value);
    }
  }

  /** Linking the new inode changes no inode's type. */
  lemma LinkNodeTypes(ctx: Ctx, v: Vol, d: int, cs: Children, name: string, newType: string, j: int)
    requires ctx.blockSize > 0 && 0 <= d < |v.inodes| && 0 <= j < |v.inodes|
    requires LinkNode(ctx, v, d, cs, name, newType, j).Ok?
    ensures SameTypes(v, LinkNode(ctx, v, d, cs, name, newType, j).value)
  {
    var added := AddChildTo(ctx, v, d, Some(cs), name, Some(j)).value;
    GrowsTypes(v, added.1, d);
    if newType == "d" {
      DotEntriesTypes(ctx, added.1, j, d);
    }
  }

  /** The "." and ".." entries change no inode's type. */
  lemma DotEntriesTypes(ctx: Ctx, v: Vol, j: int, d: int)
    requires ctx.blockSize > 0 && 0 <= d < |v.inodes| && 0 <= j < |v.inodes|
    requires DotEntries(ctx, v, j, d).Ok?
    ensures SameTypes(v, DotEntries(ctx, v, j, d).value)
  {
    var dot := AddChildTo(ctx, v, j, None, ".", Some(j)).value;
    GrowsTypes(v, dot.1, j);
    var dotdot := AddChildTo(ctx, dot.1, j, Some(dot.0), "..", Some(d)).value;
    GrowsTypes(dot.1, dotdot.1, j);
  }

  /** makeFSObj changes no inode's type but the one it allocates, from
      FREE to the type newType names (none, for a tag that names no
      type). */
  lemma MakeNodeTypes(ctx: Ctx, v: Vol, cwd: Option<int>, cwdParent: Option<int>, count: int, path: string, newType: string)
    requires ctx.blockSize > 0 && (cwd.Some? ==> 0 <= cwd.value < |v.inodes|)
    requires MakeNode(ctx, v, cwd, cwdParent, count, path, newType).Ok?
    ensures TagType(newType).None? ==> SameTypes(v, MakeNode(ctx, v, cwd, cwdParent, count, path, newType).value)
    ensures TagType(newType).Some? ==>
      OneAllocated(v, MakeNode(ctx, v, cwd, cwdParent, count, path, newType).value, TagType(newType).value)
  {
    var (prefix, name) := SplitPathName(path);
    var found := NameI(ctx, v, cwd, cwdParent, prefix).value;
    var w := found.1;
    KeepsTypes(v, w);
    if found.0.Some? && IsDirectory(w.inodes[found.0.value.0]) {
      var d := found.0.value.0;
      var got := ReadDirectory(ctx, w, d).value;
      GrowsTypes(w, got.1, d);
      if name !in Names(got.0) {
        AddNodeTypes(ctx, got.1, d, got.0, count, name, newType);
        if TagType(newType).Some? {
          SameThenOne(v, got.1, MakeNode(ctx, v, cwd, cwdParent, count, path, newType).value, TagType(newType).value);
        }
      }
    }
  }

  /** makeFSObj on a path namei already finds changes no inode's type:
      the existing name is rejected before anything is allocated. */
  lemma MakeNodeRejectsExisting(ctx: Ctx, v: Vol, cwd: Option<int>, cwdParent: Option<int>, count: int, path: string,
                                newType: string)
    requires ctx.blockSize > 0 && cwd.Some? && 0 <= cwd.value < |v.inodes|
    requires SplitPathName(path).0.Some? || '/' !in path
    requires NameI(ctx, v, cwd, cwdParent, Some(path)).Ok? && NameI(ctx, v, cwd, cwdParent, Some(path)).value.0.Some?
    ensures MakeNode(ctx, v, cwd, cwdParent, count, path, newType).Ok?
    ensures SameTypes(v, MakeNode(ctx, v, cwd, cwdParent, count, path, newType).value)
  {
    var (prefix, name) := SplitPathName(path);
    SplitPathNameWords(path);
    var c := cwd.value;
    if prefix.Some? {
      WalkAppend(ctx, v, c, cwdParent, Split(prefix.value, '/'), [name]);
    } else {
      SplitNoSep(path, '/');
      assert Split(path, '/') == [name];
    }
    var found := NameI(ctx, v, cwd, cwdParent, prefix).value;
    var w := found.1;
    var d := found.0.value.0;
    WalkOneFinds(ctx, w, d, found.0.value.1, name);
    var got := ReadDirectory(ctx, w, d).value;
    KeepsTypes(v, w);
    GrowsTypes(w, got.1, d);
    SameTrans(v, w, got.1);
  }

  /** A one-word walk that finds something starts from a directory whose
      map holds the word. */
  lemma WalkOneFinds(ctx: Ctx, v: Vol, node: int, parent: Option<int>, name: string)
    requires 0 <= node < |v.inodes| && ctx.blockSize > 0
    requires Walk(ctx, v, node, parent, [name]).Ok? && Walk(ctx, v, node, parent, [name]).value.0.Some?
    ensures IsDirectory(v.inodes[node]) && ReadDirectory(ctx, v, node).Ok?
    ensures name in Names(ReadDirectory(ctx, v, node).value.0)
  {
    assert [name][0] == name;
  }

  lemma SameTrans(u: Vol, v: Vol, w: Vol)
    requires SameTypes(u, v) && SameTypes(v, w)
    ensures SameTypes(u, w)
  {
  }

  /** makeFSObj on fs. The intended None check on namei's result comes
      before anything is read from it. */
  method MakeFSObj(fs: FileSystem, path: string, newType: string) returns (r: Result<()>)
    requires Ready(fs)
    modifies fs`cache, fs.blockMap, fs.inodeMap
    ensures r.Ok? ==> Ready(fs)
    ensures MakeNode(fs.Context(), old(fs.State()), fs.cwd, fs.cwdParent, fs.master.inodeCount, path, newType)
         == if r.Ok? then Ok(fs.State()) else Err(r.fault)
  {
    ghost var ctx := fs.Context();
    ghost var v0 := fs.State();
    var (prefix, name) := SplitPathName(path);
    var found := Namei(fs, prefix);
    if found.Err? {
      return Err(found.fault);
    }
    if found.value.None? {
      return Ok(());
    }
    var (d, dp) := found.value.value;
    if !IsDirectory(fs.inodeMap.inodes[d]) {
      return Ok(());
    }
    var dir := new Directory(fs, d, dp);
    var kids := dir.GetChildren();
    if kids.Err? {
      return Err(kids.fault);
    }
    if Lookup(kids.value, name).Some? {
      return Ok(());
    }
    r := AddFSObj(fs, dir, name, newType);
  }

  /** makeFSObj after the name check, on a loaded directory. */
  method AddFSObj(fs: FileSystem, dir: Directory, name: string, newType: string) returns (r: Result<()>)
    requires dir.fs == fs && dir.Valid() && dir.children.Some?
    modifies dir`children, fs`cache, fs.blockMap, fs.inodeMap
    ensures AddNode(fs.Context(), old(fs.State()), dir.inum, old(dir.children).value, fs.master.inodeCount, name, newType)
         == if r.Ok? then Ok(fs.State()) else Err(r.fault)
    ensures r.Ok? ==> |fs.inodeMap.inodes| == |old(fs.inodeMap.inodes)|
  {
    ghost var ctx := fs.Context();
    ghost var v0 := fs.State();
    var i := fs.inodeMap.AllocateInode(fs.master.inodeCount, newType);
    if i.Err? {
      return Err(i.fault);
    }
    var j := PyIndex(i.value, |fs.inodeMap.inodes|);
    if j.None? {
      return Err(IndexFault);
    }
    r := LinkFSObj(fs, dir, name, newType, j.value);
  }

  /** The end of makeFSObj, on the new inode j. */
  method LinkFSObj(fs: FileSystem, dir: Directory, name: string, newType: string, j: int) returns (r: Result<()>)
    requires dir.fs == fs && dir.Valid() && dir.children.Some? && 0 <= j < |fs.inodeMap.inodes|
    modifies dir`children, fs`cache, fs.blockMap, fs.inodeMap
    ensures LinkNode(fs.Context(), old(fs.State()), dir.inum, old(dir.children).value, name, newType, j)
         == if r.Ok? then Ok(fs.State()) else Err(r.fault)
    ensures r.Ok? ==> |fs.inodeMap.inodes| == |old(fs.inodeMap.inodes)|
  {
    ghost var ctx := fs.Context();
    ghost var v0 := fs.State();
    ghost var cs := dir.children.value;
    var added := dir.AddChild(name, Some(j));
    if added.Err? {
      return Err(added.fault);
    }
    ghost var v1 := fs.State();
    assert AddChildTo(ctx, v0, dir.inum, Some(cs), name, Some(j)) == Ok((dir.children.value, v1));
    if newType == "d" {
      r := AddDotEntries(fs, j, dir.inum);
    } else {
      r := Ok(());
    }
  }

  /** The "." and ".." entries of the new directory j, child of d. */
  method AddDotEntries(fs: FileSystem, j: int, d: int) returns (r: Result<()>)
    requires fs.master.blockSize > 0 && 0 <= j < |fs.inodeMap.inodes| && 0 <= d < |fs.inodeMap.inodes|
    modifies fs`cache, fs.blockMap, fs.inodeMap
    ensures DotEntries(fs.Context(), old(fs.State()), j, d) == if r.Ok? then Ok(fs.State()) else Err(r.fault)
    ensures r.Ok? ==> |fs.inodeMap.inodes| == |old(fs.inodeMap.inodes)|
  {
    ghost var ctx := fs.Context();
    ghost var v0 := fs.State();
    var sub := new Directory(fs, j, Some(d));
    var dot := sub.AddChild(".", Some(j));
    if dot.Err? {
      return Err(dot.fault);
    }
    ghost var v1 := fs.State();
    assert AddChildTo(ctx, v0, j, None, ".", Some(j)) == Ok((sub.children.value, v1));
    var dotdot := sub.AddChild("..", sub.parent);
    if dotdot.Err? {
      return Err(dotdot.fault);
    }
    r := Ok(());
  }
}
