/** mkcramfs as a whole (pkg/cramfs/mkcramfs.c: main): from files to an image and back, and what does not fit. */
module CramMain {
  import opened Results
  import opened CramLayout
  import opened CramImage
  import opened CramData
  import opened CramFs
  import opened CramParse

  /** The largest image: its last file begins where the offset of an inode can lead to. */
  function MaxFsLen(blk: nat): nat
    requires blk > 0
  {
    (OFFSET_LIMIT / 4 - 1) * 4 + SIZE_LIMIT - 1 + SIZE_LIMIT * 4 / blk
  }

  /** That is the largest offset, the largest size of a file, and the pointers that a file of that size has. */
  lemma LargestFits(blk: nat)
    requires blk in {4096, 8192, 16384, 32768, 65536}
    ensures MaxFsLen(blk) == OFFSET_LIMIT - 4 + SIZE_LIMIT - 1 + 4 * Pointers(SIZE_LIMIT - 1, blk)
  {}

  /** ((n - 1) | (blk - 1)) + 1, for a power of two. */
  function RoundUp(n: nat, blk: nat): nat
    requires blk > 0
  {
    (n + blk - 1) / blk * blk
  }

  lemma RoundedUp(n: nat, blk: nat)
    requires blk > 0
    ensures n <= RoundUp(n, blk) < n + blk && RoundUp(n, blk) % blk == 0
  {
    var q, r := (n + blk - 1) / blk, (n + blk - 1) % blk;
    assert n + blk - 1 == q * blk + r;
    MultipleOf(q, blk);
  }

  lemma MultipleOf(q: nat, blk: nat)
    requires blk > 0
    ensures q * blk % blk == 0 && q * blk / blk == q
  {
    DivUnique(q * blk, blk, q, 0);
  }

  lemma DivUnique(n: nat, blk: nat, q: nat, r: nat)
    requires blk > 0 && n == q * blk + r && r < blk
    ensures n / blk == q && n % blk == r
  {
    var a, b := n / blk, n % blk;
    assert n == a * blk + b;
    assert (a - q) * blk == a * blk - q * blk == r - b;
    if a - q >= 1 { Steeper(a - q, 1, blk); }
    if q - a >= 1 { Steeper(q - a, 1, blk); }
  }

  lemma Steeper(a: int, b: int, m: nat)
    requires a >= b
    ensures a * m >= b * m
  {}

  lemma OneRow(b: nat, blk: nat)
    ensures (b + 1) * blk == b * blk + blk
  {}

  lemma Divided(x: nat, blk: nat)
    requires blk > 0 && x % blk == 0
    ensures x == x / blk * blk
  {}

  lemma NoMultipleBetween(x: nat, m: nat, blk: nat)
    requires blk > 0 && x % blk == 0 && m % blk == 0 && x < m + blk
    ensures x <= m
  {
    Divided(x, blk);
    Divided(m, blk);
    var a, b := x / blk, m / blk;
    OneRow(b, blk);
    if a > b { Steeper(a, b + 1, blk); }
  }

  /** A multiple of blk that is not below n is not below n rounded up. */
  lemma RoundedBelow(n: nat, m: nat, blk: nat)
    requires blk > 0 && n <= m && m % blk == 0
    ensures RoundUp(n, blk) <= m
  {
    hide RoundUp;
    RoundedUp(n, blk);
    NoMultipleBetween(RoundUp(n, blk), m, blk);
  }

  /** What the tree with this root is read back as, with the size of the root from the superblock. */
  function ReadTree(img: seq<Byte>, codec: Codec, blk: nat, off: int, root: Entry): Option<Listing>
    requires blk > 0 && root.Entry?
  {
    ReadDir(img, codec, blk, off, root.size % SIZE_LIMIT, |Nodes(root.child)|)
  }

  /** An image with a tree gives it back exactly if all directories, the root among them, fit into 24 bits. */
  lemma ReadsExactly(img: seq<Byte>, codec: Codec, blk: nat, off: int, root: Entry)
    requires blk > 0 && root.Entry? && root.next.Null? && IsDir(root.mode) && root.size == ListBytes(root.child)
             && Fine(root.child)
    requires Sized(root.child)
             ==> ReadDir(img, codec, blk, off, ListBytes(root.child), |Nodes(root.child)|) == Some(Reflect(root.child))
    ensures ReadTree(img, codec, blk, off, root) == Some(Reflect(root.child))
            <==> forall n :: n in Nodes(root) && n.Entry? && IsDir(n.mode) ==> n.size < SIZE_LIMIT
  {
    hide ReadDir, Reflect, Fine, IsDir, ListBytes, ListingBytes, Nodes, Sized;
    SizedNodes(root);
    SizedRoot(root);
    if ReadTree(img, codec, blk, off, root) == Some(Reflect(root.child)) {
      TooWide(root.child, img, codec, blk, off, root.size % SIZE_LIMIT, |Nodes(root.child)|);
      ReadNarrow(img, codec, blk, off, root.size % SIZE_LIMIT, |Nodes(root.child)|);
      ReflectBytes(root.child);
    }
  }

  lemma SizedRoot(root: Entry)
    requires root.Entry? && root.next.Null? && IsDir(root.mode)
    ensures Sized(root) <==> root.size < SIZE_LIMIT && Sized(root.child)
  {}

  /** How an image whose contents end at end turns out: its length is the next multiple of blk, and it fails only if
      that does not fit into room bytes, or if an offset in it is too large for an inode. */
  ghost predicate Outcome(r: Result<int>, end: nat, blk: nat, room: nat)
    requires blk > 0
  {
    if r.Success? then end <= r.value < end + blk && r.value % blk == 0 && r.value <= room
    else if r.error == NotEnoughSpace then forall n :: end <= n && n % blk == 0 ==> room < n
    else r.error == FilesystemTooBig && end >= OFFSET_LIMIT && room >= OFFSET_LIMIT
  }

  /** The next multiple of blk decides. */
  lemma Decided(end: nat, blk: nat, room: nat)
    requires blk > 0
    ensures room < RoundUp(end, blk) ==> Outcome(Failure(NotEnoughSpace), end, blk, room)
    ensures RoundUp(end, blk) <= room ==> Outcome(Success(RoundUp(end, blk)), end, blk, room)
    ensures end >= OFFSET_LIMIT && room >= OFFSET_LIMIT ==> Outcome(Failure(FilesystemTooBig), end, blk, room)
  {
    hide RoundUp;
    RoundedUp(end, blk);
    forall n: nat | end <= n && n % blk == 0 ensures RoundUp(end, blk) <= n { RoundedBelow(end, n, blk); }
  }

  /** What main finds out before there is an image: the root, how many bytes are enough, and where the tree goes. */
  method Prepare(s: Source, mode: nat, uid: nat, gid: nat, blk: nat, pad: nat, included: Option<nat>)
    returns (r: Result<nat>, root: Entry, estimate: nat, offset0: nat)
    requires Sound(s) && IsDir(mode) && blk > 0 && pad % 4 == 0
    ensures Refusal(s) == if r.Failure? then Some(r.error) else None
    ensures r.Success? ==> root.Entry? && root.mode == mode && root.uid == uid && root.gid == gid
                           && root.size == ListBytes(root.child) && root.next.Null?
    ensures r.Success? ==> IsRoot(root) && Separate(root) && Fine(root.child) && Mirrors(s, root.child)
                           && forall i :: i in Ids(root) ==> i < r.value
    ensures r.Success? ==> var taken := pad + SUPER_SIZE + (if included.Some? then included.value else 0);
                           taken <= offset0 < taken + 4 && offset0 % 4 == 0
    ensures r.Success?
            ==> var asked := pad + SUPER_SIZE + (if included.Some? then included.value + 3 else 0) + Room(s, blk);
                asked <= estimate < asked + blk && estimate % blk == 0
    ensures r.Success? ==> offset0 + Reserved(root.child, blk) <= estimate
  {
    hide *;
    SuperIs();
    root, estimate, offset0 := Null, 0, 0;
    var fslenUb := SUPER_SIZE + pad + if included.Some? then included.value + 3 else 0;
    var parsed := ParseDirectory(s, blk, 0, fslenUb);
    if parsed.Failure? { return Failure(parsed.error), root, estimate, offset0; }
    var p := parsed.value;
    root := Entry(p.nextId, [], mode, uid, gid, p.total, [], p.entries, Null);
    RootMade(root, s, blk, fslenUb, p);
    estimate := RoundUp(p.fslenUb, blk);
    RoundedUp(p.fslenUb, blk);
    offset0 := pad + SUPER_SIZE + if included.Some? then Pad4(included.value) else 0;
    return Success(p.nextId + 1), root, estimate, offset0;
  }

  lemma SuperIs()
    ensures SUPER_SIZE == 76
  {}

  /** main, from the files to the image: the result is the length of the image. A file image that is included, pad
      bytes in front and the superblock only take room here. */
  method MakeImage(s: Source, mode: nat, uid: nat, gid: nat, codec: Codec, blk: nat, pad: nat,
                   included: Option<nat>)
    returns (r: Result<int>, rom: RomImage, root: Entry, estimate: nat, offset0: nat)
    requires Sound(s) && IsDir(mode) && Inverse(codec) && blk in {4096, 8192, 16384, 32768, 65536} && pad in {0, 512}
    ensures Refusal(s).Some? ==> r == Failure(Refusal(s).value)
    ensures Refusal(s).None? ==> root.Entry? && root.mode == mode && root.uid == uid && root.gid == gid
                                 && root.size == ListBytes(root.child)
    ensures Refusal(s).None? ==> IsRoot(root) && Mirrors(s, root.child) && Fine(root.child)
    ensures Refusal(s).None? ==> var taken := pad + SUPER_SIZE + (if included.Some? then included.value else 0);
                                 taken <= offset0 < taken + 4 && offset0 % 4 == 0
    ensures Refusal(s).None?
            ==> var asked := pad + SUPER_SIZE + (if included.Some? then included.value + 3 else 0) + Room(s, blk);
                asked <= estimate < asked + blk && estimate % blk == 0
    ensures Refusal(s).None? ==> rom.base.Length == (if estimate > MaxFsLen(blk) then MaxFsLen(blk) else estimate)
    ensures Refusal(s).None?
            ==> Outcome(r, offset0 + TreeBytes(root.child) + DataBytes(codec, blk, root, Nodes(root)), blk,
                rom.base.Length)
    ensures r == Failure(NotEnoughSpace) ==> estimate > MaxFsLen(blk) || Hollow(Nodes(root))
    ensures r.Success? ==> AllPacked(rom.base[..], rom.dirOffset[..], codec, blk, root.child)
                           && forall p :: 0 <= p < offset0 && p < rom.base.Length ==> rom.base[p] == 0
    ensures r.Success? ==> (ReadTree(rom.base[..], codec, blk, offset0, root) == Some(Reflect(root.child))
                            <==> forall n :: n in Nodes(root) && n.Entry? && IsDir(n.mode) ==> n.size < SIZE_LIMIT)
  {
    hide *;
    LimitWord(blk);
    var plan;
    plan, root, estimate, offset0 := Prepare(s, mode, uid, gid, blk, pad, included);
    if plan.Failure? {
      rom := new RomImage(0, 0);
      return Failure(plan.error), rom, root, estimate, offset0;
    }
    ReservingEnough(root, codec, blk);
    var size := if estimate > MaxFsLen(blk) then MaxFsLen(blk) else estimate;
    ghost var end := offset0 + TreeBytes(root.child) + DataBytes(codec, blk, root, Nodes(root));
    RoundedUp(end, blk);
    Decided(end, blk, size);
    if !Hollow(Nodes(root)) && estimate <= MaxFsLen(blk) { RoundedBelow(end, estimate, blk); }
    if offset0 > size {
      rom := new RomImage(size, 0);
      return Failure(NotEnoughSpace), rom, root, estimate, offset0;
    }
    r, rom := BuildImage(root, codec, blk, size, plan.value, offset0);
    if r.Failure? { return; }
    ReadsExactly(rom.base[..], codec, blk, offset0, root);
    var length: nat := RoundUp(r.value, blk);
    r := if size < length then Failure(NotEnoughSpace) else Success(length);
  }

  lemma LimitWord(blk: nat)
    requires blk in {4096, 8192, 16384, 32768, 65536}
    ensures MaxFsLen(blk) < WORD
  {}

  lemma RootMade(root: Entry, s: Source, blk: nat, fslenUb: nat, p: Parse)
    requires Sound(s) && blk > 0 && DirParsed(s, blk, 0, fslenUb, p) && root.Entry? && IsDir(root.mode)
             && root.data == [] && root.next.Null?
    requires root.child == p.entries && root.id == p.nextId && root.size == p.total
    ensures IsRoot(root) && Separate(root) && Fine(root.child) && (forall i :: i in Ids(root) ==> i < p.nextId + 1)
    ensures Mirrors(s, root.child) && root.size == ListBytes(root.child)
    ensures fslenUb + Reserved(root.child, blk) <= p.fslenUb == fslenUb + Room(s, blk)
  {
    hide Mirrors, Fine, ListBytes, Reserved, Room;
    TypesApart(root.mode);
  }

  // ----- what does not come back, and what does not fit

  /** k letters for the number i, the most significant in front. */
  function Letters(i: nat, k: nat): (w: seq<Byte>)
    ensures |w| == k && forall p :: 0 <= p < k ==> 97 <= w[p] <= 122
  {
    if k == 0 then [] else Letters(i / 26, k - 1) + [97 + i % 26]
  }

  function Power(k: nat): nat {
    if k == 0 then 1 else 26 * Power(k - 1)
  }

  /** Strings of one length stay in order in front of others. */
  lemma {:induction false} BeforeMore(a: seq<Byte>, b: seq<Byte>, x: seq<Byte>, y: seq<Byte>)
    requires |a| == |b| && NameBefore(a, b)
    ensures NameBefore(a + x, b + y)
  {
    if a != [] && a[0] == b[0] {
      BeforeMore(a[1..], b[1..], x, y);
      assert (a + x)[1..] == a[1..] + x && (b + y)[1..] == b[1..] + y;
    }
  }

  lemma {:induction false} BeforeBehind(p: seq<Byte>, a: seq<Byte>, b: seq<Byte>)
    requires NameBefore(a, b)
    ensures NameBefore(p + a, p + b)
  {
    if p == [] {
      assert p + a == a && p + b == b;
    } else {
      BeforeBehind(p[1..], a, b);
      assert (p + a)[1..] == p[1..] + a && (p + b)[1..] == p[1..] + b;
    }
  }

  lemma {:induction false} LettersAscend(i: nat, j: nat, k: nat)
    requires i < j < Power(k)
    ensures NameBefore(Letters(i, k), Letters(j, k))
  {
    if k > 0 {
      if i / 26 < j / 26 {
        LettersAscend(i / 26, j / 26, k - 1);
        BeforeMore(Letters(i / 26, k - 1), Letters(j / 26, k - 1), [97 + i % 26], [97 + j % 26]);
      } else {
        BeforeBehind(Letters(i / 26, k - 1), [97 + i % 26], [97 + j % 26]);
      }
    }
  }

  /** Names of 252 letters, in order and different for the first 11 million numbers. */
  function LongName(i: nat): (name: seq<Byte>)
    ensures |name| == MAXPATHLEN && forall k :: 0 <= k < |name| ==> name[k] != 0 && name[k] != 47
  {
    Letters(i, 5) + seq(MAXPATHLEN - 5, _ => 97)
  }

  lemma NamesAscend(i: nat, j: nat)
    requires i < j <= 11000000
    ensures NameBefore(LongName(i), LongName(j))
  {
    assert Power(2) == 676;
    assert Power(4) == 456976;
    LettersAscend(i, j, 5);
    BeforeMore(Letters(i, 5), Letters(j, 5), seq(MAXPATHLEN - 5, _ => 97), seq(MAXPATHLEN - 5, _ => 97));
  }

  /** A directory with the empty files number i to n - 1. */
  function FlatFiles(i: nat, n: nat): (s: Source)
    requires i <= n <= 11000000
    ensures Sound(s) && (if i == n then s.NoFile? else s.File? && s.name == LongName(i))
    decreases n - i
  {
    if i == n then NoFile
    else
      NamesAscend(i, i + 1);
      File(LongName(i), true, 0x8000, 0, 0, 0, 0, true, [], NoFile, FlatFiles(i + 1, n))
  }

  lemma {:induction false} FlatSound(i: nat, n: nat, blk: nat)
    requires blk > 0 && i <= n <= 11000000
    ensures !Rejected(FlatFiles(i, n)) && Room(FlatFiles(i, n), blk) == 264 * (n - i)
    decreases n - i
  {
    hide LongName;
    if i < n { FlatSound(i + 1, n, blk); }
  }

  lemma {:induction false} FlatEntries(i: nat, n: nat, e: Entry)
    requires i <= n <= 11000000 && Mirrors(FlatFiles(i, n), e)
    ensures ListBytes(e) == 264 * (n - i) && !Hollow(Nodes(e))
    decreases n - i
  {
    hide LongName, Hollow;
    if i < n {
      FlatEntries(i + 1, n, e.next);
      NodesAre(e);
      HollowParts(e, Nodes(e.child), Nodes(e.next));
    }
    NoNodes();
  }

  lemma RootHollow(root: Entry)
    requires IsRoot(root)
    ensures Hollow(Nodes(root)) <==> Hollow(Nodes(root.child))
  {
    NodesAre(root);
    NoNodes();
    HollowParts(root, Nodes(root.child), []);
  }

  /** 63551 empty files with names of 252 bytes, or more, are too many for one directory: the image is built without
      complaint, and the directory cannot be read back. */
  method WideDirectory(n: nat, codec: Codec, blk: nat)
    returns (r: Result<int>, rom: RomImage, root: Entry, estimate: nat, offset0: nat)
    requires Inverse(codec) && blk in {4096, 8192, 16384, 32768, 65536} && 63551 <= n <= 1000000
    ensures r.Success? && root.Entry? && Mirrors(FlatFiles(0, n), root.child)
    ensures ReadTree(rom.base[..], codec, blk, offset0, root) != Some(Reflect(root.child))
  {
    hide Inverse, Mirrors, ReadTree, Reflect, Nodes, Refusal, Rejected, Room, FlatFiles, Hollow, ListBytes,
         TreeBytes, DataBytes, Sound, AllPacked, RoundUp;
    FlatSound(0, n, blk);
    RefusalMeans(FlatFiles(0, n));
    r, rom, root, estimate, offset0 := MakeImage(FlatFiles(0, n), 0x4000, 0, 0, codec, blk, 0, None);
    FlatEntries(0, n, root.child);
    RootHollow(root);
    FirstNode(root);
    assert root.size >= SIZE_LIMIT && IsDir(root.mode);
  }

  /** 1100000 such files, or more, do not fit into the largest image; that the estimate is larger only gets a
      warning. */
  method Overfull(n: nat, codec: Codec, blk: nat)
    returns (r: Result<int>, rom: RomImage, root: Entry, estimate: nat, offset0: nat)
    requires Inverse(codec) && blk in {4096, 8192, 16384, 32768, 65536} && 1100000 <= n <= 11000000
    ensures r.Failure? && r.error in {FilesystemTooBig, NotEnoughSpace}
  {
    hide Inverse, Mirrors, ReadTree, Reflect, Nodes, Refusal, Rejected, Room, FlatFiles, Hollow, ListBytes,
         TreeBytes, DataBytes, Sound, AllPacked, RoundUp;
    FlatSound(0, n, blk);
    RefusalMeans(FlatFiles(0, n));
    r, rom, root, estimate, offset0 := MakeImage(FlatFiles(0, n), 0x4000, 0, 0, codec, blk, 0, None);
    FlatEntries(0, n, root.child);
    TreeWords(root.child);
  }

  function LinkAlone(): (s: Source)
    ensures Sound(s)
  {
    File([108], true, 0xA000, 0, 0, 0, 0, true, [], NoFile, NoFile)
  }

  lemma LinkAloneIs(blk: nat, e: Entry)
    requires blk > 0
    ensures !Rejected(LinkAlone()) && Room(LinkAlone(), blk) == 16
    ensures Mirrors(LinkAlone(), e) ==> Hollow(Nodes(e))
  {
    if Mirrors(LinkAlone(), e) { assert Nodes(e)[0] == e; }
  }

  lemma EmptyPointers(blk: nat)
    requires blk in {4096, 8192, 16384, 32768, 65536}
    ensures Pointers(0, blk) >= 65536
  {}

  /** A link without contents alone, on a system whose readlink accepts a size of 0: its pointers need more than what is
      reserved for the image. */
  method EmptyLink(codec: Codec, blk: nat)
    returns (r: Result<int>, rom: RomImage, root: Entry, estimate: nat, offset0: nat)
    requires Inverse(codec) && blk in {4096, 8192, 16384, 32768, 65536}
    ensures r == Failure(NotEnoughSpace)
  {
    hide Inverse, Mirrors, ReadTree, Reflect, Nodes, Refusal, Rejected, Room, LinkAlone, Hollow, Pointers,
         Sound, ListBytes, TreeBytes, DataBytes, AllPacked, RoundUp;
    LinkAloneIs(blk, Null);
    RefusalMeans(LinkAlone());
    r, rom, root, estimate, offset0 := MakeImage(LinkAlone(), 0x4000, 0, 0, codec, blk, 0, None);
    LinkAloneIs(blk, root.child);
    RootHollow(root);
    ReservingEnough(root, codec, blk);
    EmptyPointers(blk);
  }
}
