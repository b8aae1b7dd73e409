/** Files and directories. A File is an inode number with a read/write
    offset; a Directory adds the name-to-child map, loaded lazily from the
    inode's contents and linearized back into it. The map's text codec is
    a pair of functions here; the objects are classes whose methods are
    proved against them. */
module Files {
  import opened Bytes
  import opened Outcomes
  import opened Text
  import opened INodes
  import opened BlockMaps
  import opened Volumes
  import opened InodeMaps
  import opened FileSystems

  // ---------------------------------------------------------------------
  // Children

  /** A directory entry's value: the File or Directory object
      inode_to_object makes for a table inode, by its index, or None for
      an inode of any other type. */
  datatype Kid = FileKid(inum: int) | DirKid(inum: int) | NoKid

  /** inode_to_object: FILE gives a File, DIRECTORY a Directory, any other
      type None. */
  function InodeToObject(inodes: seq<INode>, i: int): (k: Kid)
    requires 0 <= i < |inodes|
    ensures k.FileKid? <==> IsFile(inodes[i])
    ensures k.DirKid? <==> IsDirectory(inodes[i])
    ensures k != NoKid ==> k.inum == i
  {
    if inodes[i].flags == FILE then FileKid(i)
    else if inodes[i].flags == DIRECTORY then DirKid(i)
    else NoKid
  }

  /** The children dictionary, in its insertion order. */
  type Children = seq<(string, Kid)>

  function Names(cs: Children): (r: seq<string>)
    ensures |r| == |cs| && forall i :: 0 <= i < |cs| ==> r[i] == cs[i].0
  {
    if cs == [] then [] else [cs[0].0] + Names(cs[1..])
  }

  predicate UniqueNames(cs: Children) {
    forall i, j :: 0 <= i < j < |cs| ==> cs[i].0 != cs[j].0
  }

  predicate KidIn(k: Kid, n: int) {
    k != NoKid ==> 0 <= k.inum < n
  }

  /** Every child names an inode of a table of n entries. */
  predicate KidsIn(cs: Children, n: int) {
    forall i :: 0 <= i < |cs| ==> KidIn(cs[i].1, n)
  }

  /** children[name], None when the name is absent. */
  function Lookup(cs: Children, name: string): (r: Option<Kid>)
    ensures r.None? <==> name !in Names(cs)
    ensures r.Some? ==> (name, r.value) in cs
  {
    if cs == [] then None
    else if cs[0].0 == name then Some(cs[0].1)
    else Lookup(cs[1..], name)
  }

  /** children[name] = kid: a present name keeps its place and takes the
      new value, an absent one is appended. */
  function Put(cs: Children, name: string, kid: Kid): (r: Children)
    ensures Names(r) == if name in Names(cs) then Names(cs) else Names(cs) + [name]
    ensures name !in Names(cs) ==> r == cs + [(name, kid)]
  {
    if cs == [] then [(name, kid)]
    else if cs[0].0 == name then [(name, kid)] + cs[1..]
    else [cs[0]] + Put(cs[1..], name, kid)
  }

  /** After Put, name maps to kid and every other name to what it did. */
  lemma {:induction false} PutLookup(cs: Children, name: string, kid: Kid, other: string)
    ensures Lookup(Put(cs, name, kid), name) == Some(kid)
    ensures other != name ==> Lookup(Put(cs, name, kid), other) == Lookup(cs, other)
  {
    if cs != [] && cs[0].0 != name {
      PutLookup(cs[1..], name, kid, other);
      assert Put(cs, name, kid) == [cs[0]] + Put(cs[1..], name, kid);
      assert Put(cs, name, kid)[1..] == Put(cs[1..], name, kid);
    } else if cs != [] {
      assert Put(cs, name, kid)[1..] == cs[1..];
    }
  }

  /** Put keeps the names distinct. */
  lemma PutUnique(cs: Children, name: string, kid: Kid)
    ensures UniqueNames(cs) ==> UniqueNames(Put(cs, name, kid))
  {
    var r := Put(cs, name, kid);
    if UniqueNames(cs) {
    forall i, j | 0 <= i < j < |r| ensures r[i].0 != r[j].0 {
      assert r[i].0 == Names(r)[i] && r[j].0 == Names(r)[j];
      if name !in Names(cs) && j == |cs| {
        assert Names(cs)[i] == cs[i].0;
      } else {
        assert Names(cs)[i] == cs[i].0 && Names(cs)[j] == cs[j].0;
      }
    }
    }
  }

  lemma {:induction false} PutKidsIn(cs: Children, name: string, kid: Kid, n: int)
    requires KidsIn(cs, n) && KidIn(kid, n)
    ensures KidsIn(Put(cs, name, kid), n)
  {
    if cs != [] {
      var r := Put(cs, name, kid);
      if cs[0].0 == name {
        assert r == [(name, kid)] + cs[1..];
        assert forall i :: 1 <= i < |r| ==> r[i] == cs[i];
      } else {
        assert KidsIn(cs[1..], n) by {
          assert forall i :: 0 <= i < |cs| - 1 ==> cs[1..][i] == cs[i + 1];
        }
        PutKidsIn(cs[1..], name, kid, n);
        var t := Put(cs[1..], name, kid);
        assert r == [cs[0]] + t;
        assert forall i :: 1 <= i < |r| ==> r[i] == t[i - 1];
      }
    }
  }

  // ---------------------------------------------------------------------
  // The text codec

  /** One record of to_str without its leading newline: the name, a bar
      and the child's inode number. */
  function Body(name: string, number: int): string {
    name + "|" + IntToString(number)
  }

  /** to_str: one "\n" + name + "|" + inodeNum record per child, in the
      map's order. A None child has no inode: an AttributeError. */
  function Linearize(cs: Children, inodes: seq<INode>): (r: Result<string>)
    requires KidsIn(cs, |inodes|)
    ensures r.Ok? <==> forall i :: 0 <= i < |cs| ==> cs[i].1 != NoKid
    ensures r.Err? ==> r.fault == LookupFault
  {
    if cs == [] then Ok("")
    else if cs[0].1 == NoKid then Err(LookupFault)
    else
      assert forall i :: 0 <= i < |cs| - 1 ==> cs[1..][i] == cs[i + 1];
      match Linearize(cs[1..], inodes)
      case Err(f) => Err(f)
      case Ok(rest) => Ok("\n" + Body(cs[0].0, inodes[cs[0].1.inum].inodeNum) + rest)
  }

  /** A linearization unfolded once: the first record, then the rest. */
  lemma LinearizeCons(cs: Children, inodes: seq<INode>)
    requires |cs| > 0 && KidsIn(cs, |inodes|) && cs[0].1 != NoKid
    ensures KidsIn(cs[1..], |inodes|) && 0 <= cs[0].1.inum < |inodes|
    ensures Linearize(cs[1..], inodes).Ok? ==>
      Linearize(cs, inodes) == Ok("\n" + Body(cs[0].0, inodes[cs[0].1.inum].inodeNum) + Linearize(cs[1..], inodes).value)
  {
    assert forall i :: 0 <= i < |cs| - 1 ==> cs[1..][i] == cs[i + 1];
  }

  /** The loop's view: one more child adds one more record at the end. */
  lemma {:induction false} LinearizeSnoc(cs: Children, c: (string, Kid), inodes: seq<INode>)
    requires KidsIn(cs, |inodes|) && KidsIn(cs + [c], |inodes|) && KidIn(c.1, |inodes|) && c.1 != NoKid
    requires Linearize(cs, inodes).Ok?
    ensures Linearize(cs + [c], inodes)
         == Ok(Linearize(cs, inodes).value + "\n" + Body(c.0, inodes[c.1.inum].inodeNum))
  {
    if cs == [] {
      assert [] + [c] == [c] && Linearize(cs, inodes).value == "";
      LinearizeSingle(c, inodes);
      assert "" + "\n" + Body(c.0, inodes[c.1.inum].inodeNum) == "\n" + Body(c.0, inodes[c.1.inum].inodeNum);
    } else {
      LinearizeCons(cs, inodes);
      LinearizeSnoc(cs[1..], c, inodes);
      SnocUnfold(cs, c, inodes);
    }
  }

  /** LinearizeSnoc's step: from the tail's snoc to the whole list's. */
  lemma SnocUnfold(cs: Children, c: (string, Kid), inodes: seq<INode>)
    requires |cs| > 0 && cs[0].1 != NoKid && c.1 != NoKid
    requires KidsIn(cs, |inodes|) && KidsIn(cs + [c], |inodes|) && KidIn(c.1, |inodes|)
    requires KidsIn(cs[1..], |inodes|) && KidsIn(cs[1..] + [c], |inodes|) && Linearize(cs[1..], inodes).Ok?
    requires Linearize(cs[1..] + [c], inodes)
          == Ok(Linearize(cs[1..], inodes).value + "\n" + Body(c.0, inodes[c.1.inum].inodeNum))
    ensures Linearize(cs, inodes).Ok?
    ensures Linearize(cs + [c], inodes)
         == Ok(Linearize(cs, inodes).value + "\n" + Body(c.0, inodes[c.1.inum].inodeNum))
  {
    var t := cs[1..];
    LinearizeCons(cs, inodes);
    var u := cs + [c];
    assert u[1..] == t + [c] && u[0] == cs[0];
    LinearizeCons(u, inodes);
    Reassociate(Body(cs[0].0, inodes[cs[0].1.inum].inodeNum), Linearize(t, inodes).value,
      Body(c.0, inodes[c.1.inum].inodeNum));
  }

  /** A single child is a single record. */
  lemma LinearizeSingle(c: (string, Kid), inodes: seq<INode>)
    requires KidsIn([c], |inodes|) && KidIn(c.1, |inodes|) && c.1 != NoKid
    ensures Linearize([c], inodes) == Ok("\n" + Body(c.0, inodes[c.1.inum].inodeNum))
  {
    assert [c][0] == c && [c][1..] == [];
    LinearizeCons([c], inodes);
    assert "\n" + Body(c.0, inodes[c.1.inum].inodeNum) + "" == "\n" + Body(c.0, inodes[c.1.inum].inodeNum);
  }

  lemma Reassociate(b0: string, lt: string, b: string)
    ensures "\n" + b0 + (lt + "\n" + b) == ("\n" + b0 + lt) + "\n" + b
  {
  }

  /** flush's bytes: bytearray(to_str(), "utf-8"), for ASCII text. */
  function Encode(cs: Children, inodes: seq<INode>): (r: Result<seq<byte>>)
    requires KidsIn(cs, |inodes|)
  {
    match Linearize(cs, inodes)
    case Err(f) => Err(f)
    case Ok(s) => if IsAscii(s) then Ok(AsciiEncode(s)) else Err(EncodingFault)
  }

  /** One non-empty line of Directory.read: split on "|"; field 1 is an
      int() and names an entry of the inode table (Python list indexing),
      field 0 is the name. */
  function ParseRecord(line: string, inodes: seq<INode>): (r: Result<(string, Kid)>)
    ensures r.Ok? ==> KidIn(r.value.1, |inodes|)
  {
    var entry := Split(line, '|');
    if |entry| < 2 then Err(IndexFault)
    else match ParseInt(entry[1])
      case Err(f) => Err(f)
      case Ok(n) =>
        match PyIndex(n, |inodes|)
        case None => Err(IndexFault)
        case Some(k) => Ok((entry[0], InodeToObject(inodes, k)))
  }

  /** Directory.read's loop over the lines, from the map built so far;
      empty lines are skipped. */
  function ParseLines(lines: seq<string>, inodes: seq<INode>, acc: Children): (r: Result<Children>)
    requires KidsIn(acc, |inodes|)
    ensures r.Ok? ==> KidsIn(r.value, |inodes|)
    ensures r.Ok? && UniqueNames(acc) ==> UniqueNames(r.value)
    decreases |lines|
  {
    if lines == [] then Ok(acc)
    else if |lines[0]| == 0 then ParseLines(lines[1..], inodes, acc)
    else match ParseRecord(lines[0], inodes)
      case Err(f) => Err(f)
      case Ok(e) =>
        PutKidsIn(acc, e.0, e.1, |inodes|);
        PutUnique(acc, e.0, e.1);
        ParseLines(lines[1..], inodes, Put(acc, e.0, e.1))
  }

  /** Directory.read as written: the whole buffer is decoded, padding
      included. */
  function DecodeAsWritten(b: seq<byte>, inodes: seq<INode>): (r: Result<Children>)
    ensures r.Ok? ==> KidsIn(r.value, |inodes|) && UniqueNames(r.value)
  {
    match AsciiDecode(b)
    case Err(f) => Err(f)
    case Ok(text) => ParseLines(Split(text, '\n'), inodes, [])
  }

  /** b without its trailing zero bytes. */
  function TrimZeros(b: seq<byte>): (r: seq<byte>)
    ensures |r| <= |b| && r == b[..|r|]
    ensures forall i :: |r| <= i < |b| ==> b[i] == 0
    ensures |r| > 0 ==> r[|r| - 1] != 0
    decreases |b|
  {
    if |b| == 0 || b[|b| - 1] != 0 then b else TrimZeros(b[..|b| - 1])
  }

  /** Directory.read with the zero padding after the text left out: the
      decoding the rest of this model uses. */
  function Decode(b: seq<byte>, inodes: seq<INode>): (r: Result<Children>)
    ensures r.Ok? ==> KidsIn(r.value, |inodes|) && UniqueNames(r.value)
  {
    DecodeAsWritten(TrimZeros(b), inodes)
  }

  // ---------------------------------------------------------------------
  // The codec round trip

  predicate NameOk(s: string) {
    IsAscii(s) && '\n' !in s && '|' !in s
  }

  /** A child the codec can carry: a file or directory inode whose
      inodeNum is its own index in the table. */
  predicate KidOk(k: Kid, inodes: seq<INode>) {
    && k != NoKid && 0 <= k.inum < |inodes|
    && inodes[k.inum].inodeNum == k.inum
    && InodeToObject(inodes, k.inum) == k
  }

  /** Children to_str and read agree on: distinct names that are ASCII and
      hold neither separator, each naming a child the codec can carry. */
  predicate Storable(cs: Children, inodes: seq<INode>) {
    && UniqueNames(cs)
    && forall i :: 0 <= i < |cs| ==> NameOk(cs[i].0) && KidOk(cs[i].1, inodes)
  }

  lemma StorableKidsIn(cs: Children, inodes: seq<INode>)
    requires Storable(cs, inodes)
    ensures KidsIn(cs, |inodes|)
  {
  }

  lemma StorableTail(cs: Children, inodes: seq<INode>)
    requires Storable(cs, inodes) && |cs| > 0
    ensures Storable(cs[1..], inodes)
  {
    assert forall i :: 0 <= i < |cs| - 1 ==> cs[1..][i] == cs[i + 1];
  }

  /** The text lines of a non-empty linearization followed by z, after its
      leading empty line. */
  function Lines(cs: Children, z: string): (r: seq<string>)
    requires |cs| > 0 && forall i :: 0 <= i < |cs| ==> cs[i].1 != NoKid
    ensures |r| == |cs|
  {
    if |cs| == 1 then [Body(cs[0].0, cs[0].1.inum) + z]
    else [Body(cs[0].0, cs[0].1.inum)] + Lines(cs[1..], z)
  }

  /** The last line carries the last child's record and then z. */
  lemma {:induction false} LinesLast(cs: Children, z: string)
    requires |cs| > 0 && forall i :: 0 <= i < |cs| ==> cs[i].1 != NoKid
    ensures Lines(cs, z)[|cs| - 1] == Body(cs[|cs| - 1].0, cs[|cs| - 1].1.inum) + z
    decreases |cs|
  {
    if |cs| > 1 {
      var tail := cs[1..];
      LinesLast(tail, z);
      assert tail[|tail| - 1] == cs[|cs| - 1];
      assert Lines(cs, z) == [Body(cs[0].0, cs[0].1.inum)] + Lines(tail, z);
    }
  }

  lemma BodyFacts(name: string, k: int)
    requires NameOk(name) && k >= 0
    ensures '\n' !in Body(name, k) && IsAscii(Body(name, k))
    ensures Split(Body(name, k), '|') == [name, IntToString(k)]
  {
    var num := IntToString(k);
    IntToStringNoSep(k, '\n');
    IntToStringNoSep(k, '|');
    assert IsDecimal(num);
    SplitPrefix(name, '|', num);
    SplitNoSep(num, '|');
    assert Body(name, k) == name + ['|'] + num;
  }

  /** A newline and a line without one in front of text whose split is
      known: the split gains the line. */
  lemma SplitStep(b: string, rest: string, z: string, tail: seq<string>)
    requires '\n' !in b && |rest| > 0 && rest[0] == '\n'
    requires Split(rest + z, '\n') == [""] + tail
    ensures Split("\n" + b + rest + z, '\n') == [""] + ([b] + tail)
  {
    var t := rest[1..] + z;
    assert rest + z == [] + ['\n'] + t;
    SplitPrefix([], '\n', t);
    assert ([""] + tail)[1..] == tail && ([""] + Split(t, '\n'))[1..] == Split(t, '\n');
    assert "\n" + b + rest + z == [] + ['\n'] + (b + ['\n'] + t);
    SplitPrefix([], '\n', b + ['\n'] + t);
    SplitPrefix(b, '\n', t);
  }

  /** A newline and a last line. */
  lemma SplitLast(b: string, z: string)
    requires '\n' !in b && '\n' !in z
    ensures Split("\n" + b + z, '\n') == [""] + [b + z]
  {
    assert "\n" + b + z == [] + ['\n'] + (b + z);
    SplitPrefix([], '\n', b + z);
    SplitNoSep(b + z, '\n');
  }

  /** Splitting a linearization followed by z on newlines gives an empty
      line and then one line per child. */
  lemma {:induction false} SplitLinearized(cs: Children, inodes: seq<INode>, z: string)
    requires Storable(cs, inodes) && |cs| > 0 && '\n' !in z
    ensures KidsIn(cs, |inodes|) && Linearize(cs, inodes).Ok?
    ensures Split(Linearize(cs, inodes).value + z, '\n') == [""] + Lines(cs, z)
  {
    var c := cs[0];
    var b := Body(c.0, c.1.inum);
    BodyFacts(c.0, c.1.inum);
    LinearizeCons(cs, inodes);
    StorableTail(cs, inodes);
    LinearizedText(cs[1..], inodes);
    var rest := Linearize(cs[1..], inodes).value;
    assert Linearize(cs, inodes).value == "\n" + b + rest;
    if |cs| == 1 {
      assert rest == "";
      assert "\n" + b + rest + z == "\n" + b + z;
      SplitLast(b, z);
    } else {
      SplitLinearized(cs[1..], inodes, z);
      LinearizeCons(cs[1..], inodes);
      SplitStep(b, rest, z, Lines(cs[1..], z));
    }
  }

  /** A linearization is ASCII and ends in a digit. */
  lemma {:induction false} LinearizedText(cs: Children, inodes: seq<INode>)
    requires Storable(cs, inodes)
    ensures KidsIn(cs, |inodes|) && Linearize(cs, inodes).Ok?
    ensures IsAscii(Linearize(cs, inodes).value)
    ensures |cs| > 0 ==> |Linearize(cs, inodes).value| > 0
    ensures |cs| > 0 ==> IsDigit(Linearize(cs, inodes).value[|Linearize(cs, inodes).value| - 1])
  {
    if |cs| > 0 {
      var c := cs[0];
      BodyFacts(c.0, c.1.inum);
      StorableTail(cs, inodes);
      LinearizedText(cs[1..], inodes);
      var b := Body(c.0, c.1.inum);
      var rest := Linearize(cs[1..], inodes).value;
      var s := "\n" + b + rest;
      assert s == Linearize(cs, inodes).value;
      assert IsAscii("\n");
      AsciiAppend("\n", b);
      AsciiAppend("\n" + b, rest);
      if |cs| == 1 {
        var num := IntToString(c.1.inum);
        assert IsDecimal(num);
        assert s[|s| - 1] == num[|num| - 1];
      } else {
        assert s[|s| - 1] == rest[|rest| - 1];
      }
    }
  }

  /** A record parses back to its child. */
  lemma ParseBody(name: string, k: Kid, inodes: seq<INode>)
    requires NameOk(name) && KidOk(k, inodes)
    ensures ParseRecord(Body(name, k.inum), inodes) == Ok((name, k))
  {
    BodyFacts(name, k.inum);
    ParseIntToString(k.inum);
  }

  /** One good line of Directory.read's loop adds its child to the map. */
  lemma ParseOne(line: string, rest: seq<string>, inodes: seq<INode>, acc: Children, c: (string, Kid))
    requires |line| > 0 && ParseRecord(line, inodes) == Ok(c) && c.0 !in Names(acc)
    requires KidsIn(acc, |inodes|)
    ensures KidsIn(acc + [c], |inodes|)
    ensures ParseLines([line] + rest, inodes, acc) == ParseLines(rest, inodes, acc + [c])
  {
    assert ([line] + rest)[0] == line && ([line] + rest)[1..] == rest;
    assert Put(acc, c.0, c.1) == acc + [c];
    PutKidsIn(acc, c.0, c.1, |inodes|);
  }

  /** The first of distinct names is not among the ones before it. */
  lemma FreshName(acc: Children, cs: Children)
    requires UniqueNames(acc + cs) && |cs| > 0
    ensures cs[0].0 !in Names(acc)
  {
    forall j | 0 <= j < |acc| ensures Names(acc)[j] != cs[0].0 {
      assert (acc + cs)[j] == acc[j] && (acc + cs)[|acc|] == cs[0];
    }
  }

  /** The lines of a linearization parse back to its children, after the
      ones already read. */
  lemma {:induction false} ParseLinesBack(cs: Children, inodes: seq<INode>, acc: Children)
    requires Storable(cs, inodes) && |cs| > 0 && KidsIn(acc, |inodes|)
    requires UniqueNames(acc + cs)
    ensures ParseLines(Lines(cs, ""), inodes, acc) == Ok(acc + cs)
  {
    var c := cs[0];
    var line := Body(c.0, c.1.inum);
    ParseBody(c.0, c.1, inodes);
    FreshName(acc, cs);
    assert |line| > 0 by { assert line[|c.0|] == '|'; }
    var acc' := acc + [c];
    assert acc' + cs[1..] == acc + cs;
    if |cs| == 1 {
      assert line + "" == line;
      assert Lines(cs, "") == [line] + [];
      ParseOne(line, [], inodes, acc, c);
      assert cs == [c];
      assert ParseLines([], inodes, acc') == Ok(acc');
    } else {
      StorableTail(cs, inodes);
      assert Lines(cs, "") == [line] + Lines(cs[1..], "");
      ParseOne(line, Lines(cs[1..], ""), inodes, acc, c);
      ParseLinesBack(cs[1..], inodes, acc');
    }
  }

  /** Stripping the zero padding after text that ends in a non-zero byte
      gives the text back. */
  lemma TrimPadded(x: seq<byte>, pad: nat)
    requires |x| == 0 || x[|x| - 1] != 0
    ensures TrimZeros(x + Zeros(pad)) == x
  {
    var b := x + Zeros(pad);
    assert forall i :: |x| <= i < |b| ==> b[i] == 0;
    assert |x| > 0 ==> b[|x| - 1] != 0;
    assert b[..|x|] == x;
  }

  /** A directory's encoding, followed by any number of zero bytes,
      decodes to the same children in the same order. */
  lemma DecodeEncode(cs: Children, inodes: seq<INode>, pad: nat)
    requires Storable(cs, inodes)
    ensures KidsIn(cs, |inodes|) && Encode(cs, inodes).Ok?
    ensures Decode(Encode(cs, inodes).value + Zeros(pad), inodes) == Ok(cs)
  {
    LinearizedText(cs, inodes);
    var s := Linearize(cs, inodes).value;
    var e := AsciiEncode(s);
    assert Encode(cs, inodes) == Ok(e);
    if |cs| > 0 {
      assert e[|e| - 1] == s[|s| - 1] as int;
    }
    TrimPadded(e, pad);
    AsciiRoundTrip(s);
    if |cs| == 0 {
      assert s == "" && e == [];
      assert TrimZeros(e + Zeros(pad)) == [];
      assert AsciiDecode([]) == Ok("");
      assert Split("", '\n') == [""];
      assert ParseLines([""], inodes, []) == ParseLines([], inodes, []);
    } else {
      SplitLinearized(cs, inodes, "");
      assert s + "" == s;
      var lines := [""] + Lines(cs, "");
      assert lines[1..] == Lines(cs, "");
      ParseLinesBack(cs, inodes, []);
      assert [] + cs == cs;
    }
  }

  // ---------------------------------------------------------------------
  // Directory.read as written

  /** n NUL characters: what zero bytes decode to. */
  function Nuls(n: nat): (z: string)
    ensures |z| == n && forall i :: 0 <= i < n ==> z[i] == 0 as char
  {
    seq(n, _ => 0 as char)
  }

  /** ASCII text followed by zero bytes decodes to the text followed by
      NULs. */
  lemma DecodePadded(s: string, pad: nat)
    requires IsAscii(s)
    ensures AsciiDecode(AsciiEncode(s) + Zeros(pad)) == Ok(s + Nuls(pad))
  {
    var b := AsciiEncode(s) + Zeros(pad);
    assert forall i :: 0 <= i < |b| ==> b[i] < 128;
    assert seq(|b|, i requires 0 <= i < |b| => b[i] as char) == s + Nuls(pad);
  }

  /** A last line that fails to parse fails the whole read. */
  lemma {:induction false} ParseLinesBadLast(lines: seq<string>, inodes: seq<INode>, acc: Children)
    requires |lines| > 0 && |lines[|lines| - 1]| > 0
    requires ParseRecord(lines[|lines| - 1], inodes).Err? && KidsIn(acc, |inodes|)
    ensures ParseLines(lines, inodes, acc).Err?
    decreases |lines|
  {
    if |lines| > 1 {
      assert lines[1..][|lines| - 2] == lines[|lines| - 1];
      if |lines[0]| == 0 {
        ParseLinesBadLast(lines[1..], inodes, acc);
      } else if ParseRecord(lines[0], inodes).Ok? {
        var e := ParseRecord(lines[0], inodes).value;
        PutKidsIn(acc, e.0, e.1, |inodes|);
        ParseLinesBadLast(lines[1..], inodes, Put(acc, e.0, e.1));
      }
    }
  }

  /** A record with NULs after its number: int() refuses the number. */
  lemma PaddedRecordFails(name: string, k: int, z: string, inodes: seq<INode>)
    requires NameOk(name) && k >= 0 && |z| > 0
    requires forall i :: 0 <= i < |z| ==> z[i] == 0 as char
    ensures ParseRecord(Body(name, k) + z, inodes) == Err(ValueFault)
  {
    var num := IntToString(k);
    var t := num + z;
    IntToStringNoSep(k, '|');
    assert '|' !in z;
    assert '|' !in t;
    assert Body(name, k) + z == name + ['|'] + t;
    SplitPrefix(name, '|', t);
    SplitNoSep(t, '|');
    assert IsDecimal(num) && |num| > 0;
    assert t[|t| - 1] == 0 as char && !IsDigit(t[|t| - 1]);
    assert !IsDecimal(t);
    assert t[1..][|t| - 2] == 0 as char;
    assert !IsDecimal(t[1..]);
  }

  /** As written, a directory whose text is followed by zero padding (its
      length exceeds the text, as for every directory of length 2048)
      cannot be read back: the padding becomes part of the last line. */
  lemma DecodeAsWrittenPadded(cs: Children, inodes: seq<INode>, pad: nat)
    requires Storable(cs, inodes) && pad > 0
    ensures KidsIn(cs, |inodes|) && Encode(cs, inodes).Ok?
    ensures DecodeAsWritten(Encode(cs, inodes).value + Zeros(pad), inodes).Err?
  {
    LinearizedText(cs, inodes);
    var s := Linearize(cs, inodes).value;
    assert Encode(cs, inodes) == Ok(AsciiEncode(s));
    DecodePadded(s, pad);
    var z := Nuls(pad);
    assert '\n' !in z;
    if |cs| == 0 {
      assert s + z == z;
      SplitNoSep(z, '\n');
      assert '|' !in z;
      SplitNoSep(z, '|');
      assert ParseRecord(z, inodes) == Err(IndexFault);
      ParseLinesBadLast([z], inodes, []);
    } else {
      SplitLinearized(cs, inodes, z);
      var lines := [""] + Lines(cs, z);
      var c := cs[|cs| - 1];
      LinesLast(cs, z);
      assert lines[|lines| - 1] == Body(c.0, c.1.inum) + z;
      PaddedRecordFails(c.0, c.1.inum, z, inodes);
      ParseLinesBadLast(lines, inodes, []);
    }
  }

  /** The root directory of a new file system, 2048 zero bytes long, as
      written: an IndexError on its only line; with the padding left out
      it is empty. */
  lemma FreshDirectoryAsWritten()
    ensures DecodeAsWritten(Zeros(DefaultLength), FreshTable()) == Err(IndexFault)
    ensures Decode(Zeros(DefaultLength), FreshTable()) == Ok([])
  {
    var z := Nuls(DefaultLength);
    DecodePadded("", DefaultLength);
    assert AsciiEncode("") + Zeros(DefaultLength) == Zeros(DefaultLength);
    assert "" + z == z;
    assert '\n' !in z && '|' !in z;
    SplitNoSep(z, '\n');
    SplitNoSep(z, '|');
    assert ParseLines([z], FreshTable(), []) == Err(IndexFault);
    assert [] + Zeros(DefaultLength) == Zeros(DefaultLength);
    TrimPadded([], DefaultLength);
    assert AsciiDecode([]) == Ok("");
    assert Split("", '\n') == [""];
    assert ParseLines([""], FreshTable(), []) == ParseLines([], FreshTable(), []);
  }

  // ---------------------------------------------------------------------
  // Directories on the volume

  /** Directory.read on inode inum: its whole length, read from offset 0
      into a zeroed buffer, decoded. A negative length is bytearray's
      ValueError. */
  function ReadDirectory(ctx: Ctx, v: Vol, inum: int): (r: Result<(Children, Vol)>)
    requires 0 <= inum < |v.inodes| && ctx.blockSize > 0
    ensures r.Ok? ==> Grows(v, r.value.1, inum)
    ensures r.Ok? ==> KidsIn(r.value.0, |v.inodes|) && UniqueNames(r.value.0)
  {
    var n := v.inodes[inum].length;
    if n < 0 then Err(ValueFault)
    else match ReadFrom(ctx, v, inum, Zeros(n), 0, 0)
      case Err(f) => Err(f)
      case Ok(got) =>
        ReadFromGrows(ctx, v, inum, Zeros(n), 0, 0);
        match Decode(got.0, got.1.inodes)
        case Err(f) => Err(f)
        case Ok(cs) => Ok((cs, got.1))
  }

  /** ensure_cached: the map already loaded, or a read when there is
      none. */
  function Cached(ctx: Ctx, v: Vol, inum: int, children: Option<Children>): Result<(Children, Vol)>
    requires 0 <= inum < |v.inodes| && ctx.blockSize > 0
  {
    if children.Some? then Ok((children.value, v)) else ReadDirectory(ctx, v, inum)
  }

  /** add_child(name, inode): a missing inode, or one that is neither a
      file nor a directory, fails the assert; otherwise the map is loaded
      and name is set to the new child. */
  function AddChildTo(ctx: Ctx, v: Vol, inum: int, children: Option<Children>, name: string, child: Option<int>)
    : (r: Result<(Children, Vol)>)
    requires 0 <= inum < |v.inodes| && ctx.blockSize > 0
    requires child.Some? ==> 0 <= child.value < |v.inodes|
    ensures r.Ok? ==> child.Some? && InodeToObject(v.inodes, child.value) != NoKid
    ensures r.Ok? ==> Grows(v, r.value.1, inum)
    ensures r.Ok? ==> Lookup(r.value.0, name) == Some(InodeToObject(v.inodes, child.value))
    ensures r.Ok? ==> Cached(ctx, v, inum, children).Ok? && forall n :: n != name ==>
      Lookup(r.value.0, n) == Lookup(Cached(ctx, v, inum, children).value.0, n)
  {
    if child.None? || InodeToObject(v.inodes, child.value) == NoKid then Err(KindFault)
    else match Cached(ctx, v, inum, children)
      case Err(f) => Err(f)
      case Ok(got) =>
        var kid := InodeToObject(v.inodes, child.value);
        PutLookupAll(got.0, name, kid);
        Ok((Put(got.0, name, kid), got.1))
  }

  lemma PutLookupAll(cs: Children, name: string, kid: Kid)
    ensures Lookup(Put(cs, name, kid), name) == Some(kid)
    ensures forall n :: n != name ==> Lookup(Put(cs, name, kid), n) == Lookup(cs, n)
  {
    PutLookup(cs, name, kid, name);
    forall n | n != name ensures Lookup(Put(cs, name, kid), n) == Lookup(cs, n) {
      PutLookup(cs, name, kid, n);
    }
  }

  /** flush: the map's encoding written to the inode at offset 0. A map
      never loaded has no keys to walk: an AttributeError. */
  function FlushDirectory(ctx: Ctx, v: Vol, inum: int, children: Option<Children>): Result<Vol>
    requires 0 <= inum < |v.inodes| && ctx.blockSize > 0
    requires children.Some? ==> KidsIn(children.value, |v.inodes|)
  {
    match children
    case None => Err(LookupFault)
    case Some(cs) =>
      match Encode(cs, v.inodes)
      case Err(f) => Err(f)
      case Ok(bytes) => WriteFrom(ctx, v, inum, bytes, 0, 0)
  }

  /** Directory.read's loop: each nonempty line is a record whose name
      is set to its child, in order. */
  method ParseText(lines: seq<string>, inodes: seq<INode>) returns (r: Result<Children>)
    ensures r == ParseLines(lines, inodes, [])
  {
    var cs: Children := [];
    var i := 0;
    while i < |lines|
      invariant 0 <= i <= |lines| && KidsIn(cs, |inodes|)
      invariant ParseLines(lines, inodes, []) == ParseLines(lines[i..], inodes, cs)
    {
      assert lines[i..][0] == lines[i] && lines[i..][1..] == lines[i + 1..];
      if |lines[i]| != 0 {
        var entry := ParseRecord(lines[i], inodes);
        if entry.Err? {
          return Err(entry.fault);
        }
        PutKidsIn(cs, entry.value.0, entry.value.1, |inodes|);
        cs := Put(cs, entry.value.0, entry.value.1);
      }
      i := i + 1;
    }
    r := Ok(cs);
  }

  // ---------------------------------------------------------------------
  // The objects

  /** A File: an inode of a file system and the offset of the next read
      or write. */
  class File {
    const fs: FileSystem
    const inum: int
    /** The inode of the directory it was found in, None for none. */
    const parent: Option<int>
    var offset: nat

    /** File(inode, parent): a new file starts at offset 0. */
    constructor(fs: FileSystem, inum: int, parent: Option<int>)
      ensures this.fs == fs && this.inum == inum && this.parent == parent && offset == 0
    {
      this.fs := fs;
      this.inum := inum;
      this.parent := parent;
      offset := 0;
    }

    /** read(buff): buff is filled from the offset on, which then advances
        by the number of bytes read, the buffer's length. */
    method Read(buffer: array<byte>) returns (r: Result<nat>)
      requires 0 <= inum < |fs.inodeMap.inodes| && fs.master.blockSize > 0
      modifies this`offset, buffer, fs`cache, fs.blockMap, fs.inodeMap
      ensures ReadFrom(fs.Context(), old(fs.State()), inum, old(buffer[..]), old(offset), old(offset))
           == if r.Ok? then Ok((buffer[..], fs.State())) else Err(r.fault)
      ensures r.Ok? ==> r.value == buffer.Length && offset == old(offset) + r.value
      ensures r.Err? ==> offset == old(offset)
    {
      var got := fs.ReadINode(inum, buffer, offset);
      if got.Err? {
        return Err(got.fault);
      }
      r := Ok(buffer.Length);
      offset := offset + buffer.Length;
    }

    /** write(buff): buff is written at the offset, which then advances by
        its length. */
    method Write(buffer: seq<byte>) returns (r: Result<()>)
      requires 0 <= inum < |fs.inodeMap.inodes| && fs.master.blockSize > 0
      modifies this`offset, fs`cache, fs.blockMap, fs.inodeMap
      ensures WriteFrom(fs.Context(), old(fs.State()), inum, buffer, old(offset), old(offset))
           == if r.Ok? then Ok(fs.State()) else Err(r.fault)
      ensures r.Ok? ==> offset == old(offset) + |buffer|
      ensures r.Err? ==> offset == old(offset)
    {
      var got := fs.WriteINode(inum, buffer, offset);
      if got.Err? {
        return Err(got.fault);
      }
      offset := offset + |buffer|;
      r := Ok(());
    }

    /** truncate(len): only the inode's length changes. */
    method Truncate(length: int)
      requires 0 <= inum < |fs.inodeMap.inodes|
      modifies fs.inodeMap
      ensures fs.inodeMap.inodes == old(fs.inodeMap.inodes)[inum := old(fs.inodeMap.inodes)[inum].(length := length)]
    {
      fs.inodeMap.Truncate(inum, length);
    }
  }

  /** A Directory: a File whose contents are the name-to-child map,
      loaded on first use (children is None until then). */
  class Directory {
    const fs: FileSystem
    const inum: int
    const parent: Option<int>
    var children: Option<Children>

    /** Its inode is in the table, the file system has a block size, and a
        loaded map names table inodes only. */
    predicate Valid()
      reads this, fs, fs.inodeMap
    {
      && 0 <= inum < |fs.inodeMap.inodes| && fs.master.blockSize > 0
      && (children.Some? ==> KidsIn(children.value, |fs.inodeMap.inodes|))
    }

    /** Directory(inode, parent): nothing loaded yet. */
    constructor(fs: FileSystem, inum: int, parent: Option<int>)
      ensures this.fs == fs && this.inum == inum && this.parent == parent && children == None
    {
      this.fs := fs;
      this.inum := inum;
      this.parent := parent;
      children := None;
    }

    /** read: the inode's contents replace the map. */
    method Read() returns (r: Result<()>)
      requires Valid()
      modifies this`children, fs`cache, fs.blockMap, fs.inodeMap
      ensures r.Ok? ==> Valid() && children.Some?
      ensures ReadDirectory(fs.Context(), old(fs.State()), inum)
           == if r.Ok? then Ok((children.value, fs.State())) else Err(r.fault)
    {
      var n := fs.inodeMap.inodes[inum].length;
      if n < 0 {
        return Err(ValueFault);
      }
      var buffer := new byte[n](_ => 0);
      assert buffer[..] == Zeros(n);
      var got := fs.ReadINode(inum, buffer, 0);
      if got.Err? {
        return Err(got.fault);
      }
      var text := AsciiDecode(TrimZeros(buffer[..]));
      if text.Err? {
        return Err(text.fault);
      }
      var cs := ParseText(Split(text.value, '\n'), fs.inodeMap.inodes);
      if cs.Err? {
        return Err(cs.fault);
      }
      children := Some(cs.value);
      r := Ok(());
    }

    /** ensure_cached: a read only while nothing is loaded. */
    method EnsureCached() returns (r: Result<()>)
      requires Valid()
      modifies this`children, fs`cache, fs.blockMap, fs.inodeMap
      ensures r.Ok? ==> Valid() && children.Some?
      ensures Cached(fs.Context(), old(fs.State()), inum, old(children))
           == if r.Ok? then Ok((children.value, fs.State())) else Err(r.fault)
      ensures old(children).Some? ==> r.Ok? && children == old(children) && fs.State() == old(fs.State())
    {
      if children.None? {
        r := Read();
      } else {
        r := Ok(());
      }
    }

    /** get_children: the loaded map; once loaded, the same map again with
        nothing read. */
    method GetChildren() returns (r: Result<Children>)
      requires Valid()
      modifies this`children, fs`cache, fs.blockMap, fs.inodeMap
      ensures r.Ok? ==> Valid()
      ensures Cached(fs.Context(), old(fs.State()), inum, old(children))
           == if r.Ok? then Ok((r.value, fs.State())) else Err(r.fault)
      ensures r.Ok? ==> children == Some(r.value)
      ensures old(children).Some? ==> r == Ok(old(children).value) && fs.State() == old(fs.State())
    {
      var ok := EnsureCached();
      if ok.Err? {
        return Err(ok.fault);
      }
      r := Ok(children.value);
    }

    /** add_child(name, inode): name now maps to a File or Directory for
        the inode; every other entry is as loaded. */
    method AddChild(name: string, child: Option<int>) returns (r: Result<()>)
      requires Valid() && (child.Some? ==> 0 <= child.value < |fs.inodeMap.inodes|)
      modifies this`children, fs`cache, fs.blockMap, fs.inodeMap
      ensures r.Ok? ==> Valid() && children.Some?
      ensures AddChildTo(fs.Context(), old(fs.State()), inum, old(children), name, child)
           == if r.Ok? then Ok((children.value, fs.State())) else Err(r.fault)
    {
      if child.None? {
        return Err(KindFault);
      }
      var kid := InodeToObject(fs.inodeMap.inodes, child.value);
      if kid == NoKid {
        return Err(KindFault);
      }
      var ok := EnsureCached();
      if ok.Err? {
        return Err(ok.fault);
      }
      PutKidsIn(children.value, name, kid, |fs.inodeMap.inodes|);
      children := Some(Put(children.value, name, kid));
      r := Ok(());
    }

    /** to_str: one record per child, in the map's order. */
    method ToStr() returns (r: Result<string>)
      requires Valid()
      ensures r == if children.None? then Err(LookupFault) else Linearize(children.value, fs.inodeMap.inodes)
    {
      if children.None? {
        return Err(LookupFault);
      }
      var cs := children.value;
      var inodes := fs.inodeMap.inodes;
      var s := "";
      var i := 0;
      while i < |cs|
        invariant 0 <= i <= |cs| && Linearize(cs[..i], inodes) == Ok(s)
      {
        if cs[i].1 == NoKid {
          return Err(LookupFault);
        }
        assert cs[..i + 1] == cs[..i] + [cs[i]];
        LinearizeSnoc(cs[..i], cs[i], inodes);
        s := s + "\n" + Body(cs[i].0, inodes[cs[i].1.inum].inodeNum);
        i := i + 1;
      }
      assert cs[..|cs|] == cs;
      r := Ok(s);
    }

    /** flush: the map's encoding is written at offset 0. */
    method Flush() returns (r: Result<()>)
      requires Valid()
      modifies fs`cache, fs.blockMap, fs.inodeMap
      ensures r.Ok? ==> Valid()
      ensures FlushDirectory(fs.Context(), old(fs.State()), inum, children)
           == if r.Ok? then Ok(fs.State()) else Err(r.fault)
    {
      var text := ToStr();
      if text.Err? {
        return Err(text.fault);
      }
      if !IsAscii(text.value) {
        return Err(EncodingFault);
      }
      var bytes := AsciiEncode(text.value);
      ghost var ctx := fs.Context();
      ghost var v0 := fs.State();
      r := fs.WriteINode(inum, bytes, 0);
      if r.Ok? {
        WriteFromGrows(ctx, v0, inum, bytes, 0, 0);
      }
    }
  }
}
