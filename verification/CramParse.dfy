/** From files to entries (pkg/cramfs/mkcramfs.c: parse_directory): names are cut to what an inode can hold,
    directories get their sizes, and room is reserved for everything. */
module CramParse {
  import opened Results
  import opened CramLayout
  import opened CramData
  import opened CramFs

  /** The longest name that the buffer for a path has room for. */
  const MAX_INPUT_NAMELEN := 255

  /** What scandir, lstat, open and readlink find out about a directory: found and readable say whether lstat and then
      access or readlink succeed. */
  datatype Source = NoFile
    | File(name: seq<Byte>, found: bool, mode: nat, uid: nat, gid: nat, size: nat, rdev: nat, readable: bool,
        contents: seq<Byte>,
           inside: Source, rest: Source)

  predicate IsFifo(mode: nat) { mode / 0x1000 % 16 == 1 || mode / 0x1000 % 16 == 12 }

  predicate IsDevice(mode: nat) { mode / 0x1000 % 16 == 2 || mode / 0x1000 % 16 == 6 }

  /** cramsort: strcmp puts a before b. */
  predicate NameBefore(a: seq<Byte>, b: seq<Byte>) {
    if a == [] || b == [] then a == [] && b != []
    else if a[0] == b[0] then NameBefore(a[1..], b[1..]) else a[0] < b[0]
  }

  /** Names are C strings that are not empty and contain no slash, different names in the order of cramsort; files have
      the contents that their size says, and links lead to paths. */
  ghost predicate Sound(s: Source) {
    s.File? ==>
      && 1 <= |s.name| && (forall i :: 0 <= i < |s.name| ==> s.name[i] != 0 && s.name[i] != 47)
      && (s.rest.File? ==> NameBefore(s.name, s.rest.name))
      && |s.contents| == s.size && (IsLnk(s.mode) ==> s.size < SIZE_LIMIT) && Sound(s.inside) && Sound(s.rest)
  }

  /** A byte that continues a UTF-8 character. */
  predicate Trail(b: Byte): (t: bool)
    ensures t <==> 0x80 <= b < 0xC0
  {
    b / 64 == 2
  }

  /** A name may be cut to n bytes: the first byte that is lost does not continue a character. */
  ghost predicate Cut(name: seq<Byte>, n: nat)
    requires n <= |name|
  {
    if |name| <= MAXPATHLEN then
      n == |name|
    else
      && 1 <= n <= MAXPATHLEN && (forall i :: n < i <= MAXPATHLEN ==> Trail(name[i]))
      && (if n < MAXPATHLEN then name[n] >= 0xC0 else !Trail(name[n]))
  }

  /** No character starts among the last bytes: the name is not UTF-8. */
  ghost predicate Uncuttable(name: seq<Byte>) {
    exists k :: 0 <= k < MAXPATHLEN < |name| && (k == 0 || name[k] < 0x80)
        && forall i :: k < i <= MAXPATHLEN ==> Trail(name[i])
  }

  /** The bytes in front of the last character that begins among the first n + 1 bytes. */
  function Begun(name: seq<Byte>, n: nat): nat
    requires n < |name|
  {
    if n > 0 && Trail(name[n]) then Begun(name, n - 1) else n
  }

  /** The bytes of a name that are kept. */
  function NameBytes(name: seq<Byte>): nat {
    if |name| <= MAXPATHLEN then |name| else Begun(name, MAXPATHLEN)
  }

  lemma {:induction false} BegunAt(name: seq<Byte>, n: nat, m: nat)
    requires n <= m < |name| && (forall i :: n < i <= m ==> Trail(name[i])) && (n == 0 || !Trail(name[n]))
    ensures Begun(name, m) == n
  {
    if n < m { BegunAt(name, n, m - 1); }
  }

  /** There is only one way to cut a name. */
  lemma CutOnly(name: seq<Byte>, n: nat)
    requires n <= |name| && Cut(name, n)
    ensures n == NameBytes(name)
  {
    if |name| > MAXPATHLEN { BegunAt(name, n, MAXPATHLEN); }
  }

  /** The cutting of long names. */
  method CutName(name: seq<Byte>) returns (r: Result<nat>)
    requires 1 <= |name|
    ensures r.Success? ==> 1 <= r.value <= |name| && r.value <= MAXPATHLEN && Cut(name, r.value)
    ensures r.Failure? <==> Uncuttable(name)
    ensures r.Failure? ==> r.error == BadName
  {
    var namelen := |name|;
    if namelen > MAXPATHLEN {
      namelen := MAXPATHLEN;
      while Trail(name[namelen])
        invariant 1 <= namelen <= MAXPATHLEN < |name| && forall i :: namelen < i <= MAXPATHLEN ==> Trail(name[i])
        invariant namelen < MAXPATHLEN ==> name[namelen] >= 0x80
        decreases namelen
      {
        namelen := namelen - 1;
        if name[namelen] < 0x80 || namelen == 0 { return Failure(BadName); }
      }
    }
    return Success(namelen);
  }

  // ----- directories too large for an image

  /** The bytes a directory with these entries takes at least. */
  function ListingBytes(l: Listing): nat {
    if l.End? then 0 else INODE_SIZE + Pad4(|l.name|) + ListingBytes(l.rest)
  }

  /** No directory has 16 megabytes of entries. */
  ghost predicate Narrow(l: Listing) {
    l.Item? ==> (IsDir(l.mode) ==> ListingBytes(l.inside) < SIZE_LIMIT) && Narrow(l.inside) && Narrow(l.rest)
  }

  lemma {:induction false} StrippedShorter(s: seq<Byte>)
    ensures |Stripped(s)| <= |s|
  {
    if s != [] && s[|s| - 1] == 0 { StrippedShorter(s[..|s| - 1]); }
  }

  lemma PaddedBelow(n: nat, m: nat)
    requires n <= m && m % 4 == 0
    ensures Pad4(n) <= m
  {}

  /** Nothing that is read from any image has a larger directory. */
  lemma {:induction false} ReadNarrow(img: seq<Byte>, codec: Codec, blk: nat, off: int, size: int, fuel: nat)
    requires blk > 0
    ensures match ReadDir(img, codec, blk, off, size, fuel)
            case None => true
            case Some(l) => Narrow(l) && 0 <= size && ListingBytes(l) <= size
    decreases fuel
  {
    hide Word, ReadFile, Half, Stripped, IsReg, IsLnk;
    if size != 0 && ReadDir(img, codec, blk, off, size, fuel).Some? {
      var namelen := Word(img, off + 8) % 64 * 4;
      StrippedShorter(img[off + INODE_SIZE..off + INODE_SIZE + namelen]);
      PaddedBelow(|Stripped(img[off + INODE_SIZE..off + INODE_SIZE + namelen])|, namelen);
      ReadNarrow(img, codec, blk, OffsetAt(img, off), Third(img, off + 4), fuel - 1);
      ReadNarrow(img, codec, blk, off + INODE_SIZE + namelen, size - INODE_SIZE - namelen, fuel - 1);
    }
  }

  lemma {:induction false} ReflectBytes(e: Entry)
    ensures ListingBytes(Reflect(e)) == ListBytes(e)
  {
    if e.Entry? { ReflectBytes(e.next); }
  }

  lemma {:induction false} NarrowSized(e: Entry)
    requires Fine(e)
    ensures Narrow(Reflect(e)) <==> Sized(e)
  {
    if e.Entry? {
      NarrowSized(e.child);
      NarrowSized(e.next);
      ReflectBytes(e.child);
      TypeKept(e.mode);
    }
  }

  /** A tree with a directory that is too large cannot be read back from any image. */
  lemma TooWide(e: Entry, img: seq<Byte>, codec: Codec, blk: nat, off: int, size: int, fuel: nat)
    requires blk > 0 && Fine(e) && ReadDir(img, codec, blk, off, size, fuel) == Some(Reflect(e))
    ensures Sized(e)
  {
    hide ReadDir, Reflect, Fine, Sized, Narrow;
    ReadNarrow(img, codec, blk, off, size, fuel);
    NarrowSized(e);
  }

  // ----- parse_directory

  /** Ids from lo on, below hi. */
  ghost predicate IdsIn(e: Entry, lo: nat, hi: nat) {
    Separate(e) && forall i :: i in Ids(e) ==> lo <= i < hi
  }

  /** What is left of a file that is not a directory after the checks of parse_directory: its size and contents. */
  datatype Kind = Skip | Keep(size: nat, data: seq<Byte>)

  /** The size of a regular file: 32 bits of what lstat says, at most what fits into an inode. */
  function FileSize(size: nat): nat {
    if size % WORD < SIZE_LIMIT then size % WORD else SIZE_LIMIT - 1
  }

  /** The types that parse_directory keeps, by their numbers: pipes 1, devices 2 and 6, directories 4, files 8,
      links 10, sockets 12. */
  predicate KnownType(mode: nat) {
    mode / 0x1000 % 16 in {1, 2, 4, 6, 8, 10, 12}
  }

  lemma TypesKept(mode: nat)
    ensures KnownType(mode) <==> IsDir(mode) || IsReg(mode) || IsLnk(mode) || IsFifo(mode) || IsDevice(mode)
    ensures IsDir(mode) ==> KnownType(mode)
    ensures IsDevice(mode) <==> mode / 0x1000 % 16 in {2, 6}
  {}

  /** parse_directory gives up: a name is longer than the buffer for paths allows, whether or not the file can be found,
      a name cannot be cut, or a file has an unknown type. */
  ghost predicate Rejected(s: Source) {
    s.File? && (|s.name| > MAX_INPUT_NAMELEN
        || (Visited(s) && (Uncuttable(s.name) || !KnownType(s.mode) || (IsDir(s.mode) && Rejected(s.inside))))
        || Rejected(s.rest))
  }

  /** The error at the first file that parse_directory gives up at. */
  ghost function Refusal(s: Source): (r: Option<Error>)
    ensures r in {None, Some(BadName), Some(BogusFile)}
    decreases s, 1
  {
    if s.NoFile? then None
    else if |s.name| > MAX_INPUT_NAMELEN then Some(BadName)
    else if Visited(s) && RefusalHere(s).Some? then RefusalHere(s) else Refusal(s.rest)
  }

  ghost function RefusalHere(s: Source): (r: Option<Error>)
    requires s.File?
    ensures r in {None, Some(BadName), Some(BogusFile)}
    decreases s, 0
  {
    if Uncuttable(s.name) then Some(BadName)
    else if IsDir(s.mode) then Refusal(s.inside)
    else if KnownType(s.mode) then None else Some(BogusFile)
  }

  lemma {:induction false} RefusalMeans(s: Source)
    ensures Refusal(s).Some? <==> Rejected(s)
  {
    hide Uncuttable, IsDir, Visited;
    if s.File? {
      TypesKept(s.mode);
      RefusalMeans(s.inside);
      RefusalMeans(s.rest);
    }
  }

  /** A file other than . and .. that lstat finds. */
  predicate Visited(s: Source)
    requires s.File?
  {
    s.name != [46] && s.name != [46, 46] && s.found
  }

  /** What parse_directory reserves for a list of files. */
  function Room(s: Source, blk: nat): nat
    requires blk > 0
    decreases s, 1
  {
    if s.NoFile? then 0 else (if Visited(s) then RoomHere(s, blk) else 0) + Room(s.rest, blk)
  }

  function RoomHere(s: Source, blk: nat): nat
    requires blk > 0 && s.File?
    decreases s, 0
  {
    INODE_SIZE + Pad4(NameBytes(s.name))
    + (if IsDir(s.mode) then Room(s.inside, blk)
       else if Dropped(s) then 0 else DataRoom(s, blk))
  }

  function DataRoom(s: Source, blk: nat): nat
    requires blk > 0 && s.File?
  {
    if IsReg(s.mode) && FileSize(s.size) > 0 then DataBound(FileSize(s.size), blk)
    else if IsLnk(s.mode) && s.size > 0 then DataBound(s.size, blk) else 0
  }

  /** What an inode of a file that is not a directory gets. */
  ghost predicate Contents(s: Source, size: nat, data: seq<Byte>)
    requires s.File? && |s.contents| == s.size && (IsLnk(s.mode) ==> s.size < SIZE_LIMIT)
  {
    if IsReg(s.mode) then size == FileSize(s.size) && data == s.contents[..size]
    else if IsLnk(s.mode) then size == s.size && data == s.contents
    else size == (if IsDevice(s.mode) then s.rdev % WORD else 0) && data == []
  }

  /** The files that parse_directory leaves out. */
  predicate Dropped(s: Source)
    requires s.File?
  {
    s.name == [46] || s.name == [46, 46] || !s.found
        || (!s.readable && (IsLnk(s.mode) || (IsReg(s.mode) && s.size % WORD > 0)))
  }

  /** The list of entries e is what the files s should become. */
  ghost predicate Mirrors(s: Source, e: Entry)
    requires Sound(s)
  {
    if s.NoFile? then e.Null?
    else if Dropped(s) then Mirrors(s.rest, e)
    else e.Entry? && MirrorsHere(s, e) && Mirrors(s.rest, e.next) && if IsDir(s.mode) then Mirrors(s.inside, e.child)
        else e.child.Null?
  }

  ghost predicate MirrorsHere(s: Source, e: Entry)
    requires s.File? && Sound(s) && e.Entry?
  {
    && |e.name| <= |s.name| && e.name == s.name[..|e.name|] && Cut(s.name, |e.name|)
    && e.mode == s.mode && e.uid == s.uid && e.gid == s.gid && (!IsDir(s.mode) ==> Contents(s, e.size, e.data))
  }

  /** The branches of parse_directory on the type of a file that is not a directory. */
  method Classify(s: Source) returns (r: Result<Kind>)
    requires s.File? && Sound(s) && !IsDir(s.mode)
    ensures r.Failure? <==> !KnownType(s.mode)
    ensures r.Failure? ==> r.error == BogusFile
    ensures r.Success? && r.value.Skip? <==> !s.readable && (IsLnk(s.mode) || (IsReg(s.mode) && s.size % WORD > 0))
    ensures r.Success? && r.value.Keep? ==> Contents(s, r.value.size, r.value.data)
  {
    var size := s.size % WORD;
    if IsReg(s.mode) {
      if size != 0 {
        if !s.readable { return Success(Skip); }
        if size >= SIZE_LIMIT { size := SIZE_LIMIT - 1; }
      }
      return Success(Keep(size, s.contents[..size]));
    } else if IsLnk(s.mode) {
      if !s.readable { return Success(Skip); }
      return Success(Keep(size, s.contents));
    } else if IsFifo(s.mode) {
      return Success(Keep(0, []));
    } else if IsDevice(s.mode) {
      return Success(Keep(s.rdev % WORD, []));
    }
    return Failure(BogusFile);
  }

  lemma ContentsFit(s: Source, size: nat, data: seq<Byte>)
    requires s.File? && Sound(s) && Contents(s, size, data)
    ensures if (IsReg(s.mode) || IsLnk(s.mode)) && size > 0 then |data| == size < SIZE_LIMIT else data == []
  {}

  lemma ContentsRoom(s: Source, size: nat, data: seq<Byte>, blk: nat)
    requires s.File? && Sound(s) && Contents(s, size, data) && blk > 0
    ensures DataRoom(s, blk) == if data != [] then DataBound(|data|, blk) else 0
  {
    hide DataBound;
  }

  lemma TypesApart(mode: nat)
    ensures IsDir(mode) ==> !IsReg(mode) && !IsLnk(mode)
  {}

  /** One file after parse_directory: left out, or an entry of its own. fslenUb is the room reserved so far. */
  datatype One = Skipped(fslenUb: nat) | Made(e: Entry, fslenUb: nat, nextId: nat)

  /** A directory after parse_directory: its entries and their total size. */
  datatype Parse = Parse(entries: Entry, total: nat, fslenUb: nat, nextId: nat)

  ghost predicate DirParsed(s: Source, blk: nat, id0: nat, fslenUb0: nat, p: Parse)
    requires Sound(s) && blk > 0
  {
    && Mirrors(s, p.entries) && Fine(p.entries) && p.total == ListBytes(p.entries)
    && fslenUb0 + Reserved(p.entries, blk) <= p.fslenUb == fslenUb0 + Room(s, blk) && id0 <= p.nextId
       && IdsIn(p.entries, id0, p.nextId)
  }

  ghost predicate FileParsed(s: Source, blk: nat, id0: nat, fslenUb0: nat, one: One)
    requires s.File? && Sound(s) && blk > 0
  {
    && one.fslenUb == fslenUb0 + (if Visited(s) then RoomHere(s, blk) else 0)
    && match one
    case Skipped(ub) => Dropped(s) && ub >= fslenUb0
    case Made(e, ub, id) =>
      && !Dropped(s) && e.Entry? && e.id == id0 && e.next.Null? && MirrorsHere(s, e) && FineHere(e) && Fine(e.child)
      && (if IsDir(s.mode) then Mirrors(s.inside, e.child) else e.child.Null?)
      && id0 < id && IdsIn(e.child, id0 + 1, id)
      && ub >= fslenUb0 + EntryBytes(e) + (if e.data != [] then DataBound(|e.data|, blk)
         else 0) + Reserved(e.child, blk)
  }

  lemma NothingParsed(s: Source, blk: nat, id0: nat, fslenUb0: nat)
    requires s.NoFile? && blk > 0
    ensures DirParsed(s, blk, id0, fslenUb0, Parse(Null, 0, fslenUb0, id0))
  {}

  /** A file that is left out changes nothing but the room reserved. */
  lemma SkippedParsed(s: Source, blk: nat, id0: nat, fslenUb0: nat, one: One, p: Parse)
    requires s.File? && Sound(s) && blk > 0 && one.Skipped? && FileParsed(s, blk, id0, fslenUb0, one)
    requires DirParsed(s.rest, blk, id0, one.fslenUb, p)
    ensures DirParsed(s, blk, id0, fslenUb0, p)
  {
    hide Fine, ListBytes, Reserved, Separate, RoomHere;
  }

  /** An entry joins those behind it. */
  lemma MadeParsed(s: Source, blk: nat, id0: nat, fslenUb0: nat, one: One, p: Parse)
    requires s.File? && Sound(s) && blk > 0 && one.Made? && FileParsed(s, blk, id0, fslenUb0, one)
    requires DirParsed(s.rest, blk, one.nextId, one.fslenUb, p)
    ensures one.e.Entry?
    ensures DirParsed(s, blk, id0, fslenUb0, Parse(one.e.(next := p.entries), EntryBytes(one.e) + p.total,
            p.fslenUb, p.nextId))
  {
    hide Fine, FineHere, Mirrors, MirrorsHere, ListBytes, Reserved, Separate, DataBound, Dropped, RoomHere;
    var e := one.e.(next := p.entries);
    JoinedMirrors(s, one.e, e);
    JoinedFine(one.e, e);
    JoinedIds(e, one.nextId, p.nextId);
    JoinedBytes(e, blk);
  }

  lemma JoinedMirrors(s: Source, made: Entry, e: Entry)
    requires s.File? && Sound(s) && !Dropped(s) && made.Entry? && e.Entry? && e == made.(next := e.next)
             && MirrorsHere(s, made) && Mirrors(s.rest, e.next)
    requires if IsDir(s.mode) then Mirrors(s.inside, e.child) else e.child.Null?
    ensures Mirrors(s, e)
  {}

  lemma JoinedFine(made: Entry, e: Entry)
    requires made.Entry? && e.Entry? && e == made.(next := e.next) && FineHere(made) && Fine(made.child) && Fine(e.next)
    ensures Fine(e)
  {}

  lemma JoinedIds(e: Entry, id1: nat, id2: nat)
    requires e.Entry? && IdsIn(e.child, e.id + 1, id1) && IdsIn(e.next, id1, id2) && e.id < id1 <= id2
    ensures IdsIn(e, e.id, id2)
  {}

  lemma JoinedBytes(e: Entry, blk: nat)
    requires e.Entry? && blk > 0
    ensures ListBytes(e) == EntryBytes(e) + ListBytes(e.next)
    ensures Reserved(e, blk) == EntryBytes(e) + (if e.data != [] then DataBound(|e.data|, blk)
            else 0) + Reserved(e.child, blk) + Reserved(e.next, blk)
  {}

  /** A file that is not a directory becomes an entry without children. */
  lemma LeafParsed(s: Source, blk: nat, id0: nat, fslenUb0: nat, e: Entry, fslenUb: nat)
    requires s.File? && Sound(s) && blk > 0 && !Dropped(s) && !IsDir(s.mode) && e.Entry? && Contents(s, e.size, e.data)
    requires 1 <= |e.name| <= |s.name| && |e.name| <= MAXPATHLEN && e.name == s.name[..|e.name|]
             && Cut(s.name, |e.name|)
    requires e == Entry(id0, e.name, s.mode, s.uid, s.gid, e.size, e.data, Null, Null)
    requires fslenUb == fslenUb0 + EntryBytes(e) + (if e.data != [] then DataBound(|e.data|, blk) else 0) && Visited(s)
    ensures FileParsed(s, blk, id0, fslenUb0, Made(e, fslenUb, id0 + 1))
  {
    hide Contents, Cut, DataBound, DataRoom, IsDir, IsReg, IsLnk, Dropped, Pad4, FileSize;
    ContentsFit(s, e.size, e.data);
    ContentsRoom(s, e.size, e.data, blk);
    CutOnly(s.name, |e.name|);
  }

  /** A directory becomes an entry with what is inside. */
  lemma InnerParsed(s: Source, blk: nat, id0: nat, fslenUb0: nat, name: seq<Byte>, p: Parse)
    requires s.File? && Sound(s) && blk > 0 && !Dropped(s) && IsDir(s.mode) && Visited(s)
    requires 1 <= |name| <= |s.name| && |name| <= MAXPATHLEN && name == s.name[..|name|] && Cut(s.name, |name|)
    requires DirParsed(s.inside, blk, id0 + 1, fslenUb0 + INODE_SIZE + Pad4(|name|), p)
    ensures FileParsed(s, blk, id0, fslenUb0,
            Made(Entry(id0, name, s.mode, s.uid, s.gid, p.total, [], p.entries, Null), p.fslenUb, p.nextId))
  {
    hide Cut, IsDir, IsReg, IsLnk, Dropped, Fine, Mirrors, ListBytes, Reserved, Pad4, Room;
    TypesApart(s.mode);
    CutOnly(s.name, |name|);
  }

  lemma NotDropped(s: Source)
    requires s.File? && Visited(s)
    ensures Dropped(s) <==> !s.readable && (IsLnk(s.mode) || (IsReg(s.mode) && s.size % WORD > 0))
  {}

  /** What is reserved for the contents of a file that is not a directory. */
  method Reserve(s: Source, blk: nat, fslenUb0: nat, size: nat, data: seq<Byte>) returns (fslenUb: nat)
    requires s.File? && Sound(s) && blk > 0 && Contents(s, size, data)
    ensures fslenUb == fslenUb0 + if data != [] then DataBound(|data|, blk) else 0
  {
    hide Contents, IsReg, IsLnk;
    fslenUb := fslenUb0;
    ContentsFit(s, size, data);
    if IsReg(s.mode) || IsLnk(s.mode) {
      var blocks := (size - 1) % WORD / blk + 1;
      if size != 0 { fslenUb := fslenUb + (4 + 26) * blocks + size + 3; }
    }
  }

  /** The body of the loop of parse_directory for a file that lstat finds and that is neither . nor .. */
  method ParseFile(s: Source, blk: nat, id0: nat, fslenUb0: nat) returns (r: Result<One>)
    requires s.File? && Sound(s) && blk > 0 && Visited(s)
    ensures RefusalHere(s) == if r.Failure? then Some(r.error) else None
    ensures r.Success? ==> FileParsed(s, blk, id0, fslenUb0, r.value)
    decreases s, 0
  {
    hide Mirrors, MirrorsHere, Contents, Cut, DirParsed, FileParsed, Dropped, IsDir, IsReg, IsLnk,
         IsFifo, IsDevice, DataBound, Rejected,
         Uncuttable, Visited;
    NotDropped(s);
    var namelen :- CutName(s.name);
    var name := s.name[..namelen];
    var fslenUb := fslenUb0 + (INODE_SIZE + Pad4(namelen));
    if IsDir(s.mode) {
      TypesApart(s.mode);
      TypesKept(s.mode);
      var inside :- ParseDirectory(s.inside, blk, id0 + 1, fslenUb);
      InnerParsed(s, blk, id0, fslenUb0, name, inside);
      return Success(Made(Entry(id0, name, s.mode, s.uid, s.gid, inside.total, [], inside.entries, Null),
          inside.fslenUb, inside.nextId));
    }
    var kind :- Classify(s);
    if kind.Skip? {
      CutOnly(s.name, namelen);
      LeftOut(s, blk, id0, fslenUb0, fslenUb);
      return Success(Skipped(fslenUb));
    }
    fslenUb := Reserve(s, blk, fslenUb, kind.size, kind.data);
    var e := Entry(id0, name, s.mode, s.uid, s.gid, kind.size, kind.data, Null, Null);
    LeafParsed(s, blk, id0, fslenUb0, e, fslenUb);
    return Success(Made(e, fslenUb, id0 + 1));
  }

  lemma LeftOut(s: Source, blk: nat, id0: nat, fslenUb0: nat, fslenUb: nat)
    requires s.File? && Sound(s) && blk > 0 && Dropped(s) && (Visited(s) ==> !IsDir(s.mode))
    requires fslenUb == fslenUb0 + if Visited(s) then INODE_SIZE + Pad4(NameBytes(s.name)) else 0
    ensures FileParsed(s, blk, id0, fslenUb0, Skipped(fslenUb))
  {}

  /** parse_directory: the entries of a directory, their total size, and the room reserved so far. Files that
      cannot be read are left out, though room for their inodes stays reserved. */
  method ParseDirectory(s: Source, blk: nat, id0: nat, fslenUb0: nat) returns (r: Result<Parse>)
    requires Sound(s) && blk > 0
    ensures Refusal(s) == if r.Failure? then Some(r.error) else None
    ensures r.Success? ==> DirParsed(s, blk, id0, fslenUb0, r.value)
    decreases s, 1
  {
    hide Mirrors, MirrorsHere, DirParsed, FileParsed, Dropped, EntryBytes, Uncuttable, KnownType, IsDir;
    if s.NoFile? {
      NothingParsed(s, blk, id0, fslenUb0);
      return Success(Parse(Null, 0, fslenUb0, id0));
    }
    if |s.name| > MAX_INPUT_NAMELEN { return Failure(BadName); }
    if s.name == [46] || s.name == [46, 46] || !s.found {
      assert FileParsed(s, blk, id0, fslenUb0, Skipped(fslenUb0)) by { LeftOut(s, blk, id0, fslenUb0, fslenUb0); }
      var rest :- ParseDirectory(s.rest, blk, id0, fslenUb0);
      SkippedParsed(s, blk, id0, fslenUb0, Skipped(fslenUb0), rest);
      return Success(rest);
    }
    var one :- ParseFile(s, blk, id0, fslenUb0);
    if one.Skipped? {
      var rest :- ParseDirectory(s.rest, blk, id0, one.fslenUb);
      SkippedParsed(s, blk, id0, fslenUb0, one, rest);
      return Success(rest);
    }
    MadeEntry(s, blk, id0, fslenUb0, one);
    var rest :- ParseDirectory(s.rest, blk, one.nextId, one.fslenUb);
    MadeParsed(s, blk, id0, fslenUb0, one, rest);
    return Success(Parse(one.e.(next := rest.entries), EntryBytes(one.e) + rest.total, rest.fslenUb, rest.nextId));
  }

  lemma MadeEntry(s: Source, blk: nat, id0: nat, fslenUb0: nat, one: One)
    requires s.File? && Sound(s) && blk > 0 && one.Made? && FileParsed(s, blk, id0, fslenUb0, one)
    ensures one.e.Entry?
  {}
}
