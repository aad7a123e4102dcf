/** Finding a file by its path in an image of mkcramfs (os/linux-2.6/fs/cramfs/inode.c: cramfs_lookup). Directories are
    flagged as sorted, which they are not where names have been cut; every file is found all the same, unless one in
    front of it has got the same name. */
module CramLookup {
  import opened Results
  import opened CramLayout
  import opened CramData
  import opened CramFs
  import opened CramParse
  import opened CramMain

  // ----- the order of a directory

  /** The names in l do not begin with a smaller character, and none as long as name stands before it. */
  ghost predicate Follows(name: seq<Byte>, l: Listing) {
    l.Item? ==>
      && name != [] && l.name != [] && name[0] <= l.name[0] && (|l.name| == |name| ==> !NameBefore(l.name, name))
      && Follows(name, l.rest)
  }

  /** In every directory of the tree each entry stands before those that follow it, as far as a lookup needs it. */
  ghost predicate Orderly(l: Listing) {
    l.Item? ==> l.name != [] && Follows(l.name, l.rest) && Orderly(l.inside) && Orderly(l.rest)
  }

  /** The directories are as large as their entries. */
  ghost predicate Tight(l: Listing) {
    l.Item? ==> (IsDir(l.mode) ==> ListingBytes(l.inside) == l.size) && Tight(l.inside) && Tight(l.rest)
  }

  /** All files of the list have names behind x. */
  ghost predicate AllBehind(x: seq<Byte>, s: Source) {
    s.File? ==> NameBefore(x, s.name) && AllBehind(x, s.rest)
  }

  lemma {:induction false} BeforeTrans(a: seq<Byte>, b: seq<Byte>, c: seq<Byte>)
    requires NameBefore(a, b) && NameBefore(b, c)
    ensures NameBefore(a, c)
  {
    if a != [] && c != [] && a[0] == b[0] == c[0] { BeforeTrans(a[1..], b[1..], c[1..]); }
  }

  lemma {:induction false} BehindMore(x: seq<Byte>, y: seq<Byte>, s: Source)
    requires NameBefore(x, y) && AllBehind(y, s)
    ensures AllBehind(x, s)
  {
    if s.File? {
      BeforeTrans(x, y, s.name);
      BehindMore(x, y, s.rest);
    }
  }

  lemma {:induction false} SortedBehind(s: Source)
    requires Sound(s) && s.File?
    ensures AllBehind(s.name, s.rest)
  {
    if s.rest.File? {
      SortedBehind(s.rest);
      BehindMore(s.name, s.rest.name, s.rest.rest);
    }
  }

  /** Cut to the same length, names do not change places. */
  lemma {:induction false} CutOrder(a: seq<Byte>, b: seq<Byte>, n: nat)
    requires NameBefore(a, b) && n <= |a| && n <= |b|
    ensures !NameBefore(b[..n], a[..n])
  {
    if n > 0 && a[0] == b[0] {
      CutOrder(a[1..], b[1..], n - 1);
      assert a[..n][1..] == a[1..][..n - 1] && b[..n][1..] == b[1..][..n - 1];
    }
  }

  lemma {:induction false} MirrorsFollow(x: seq<Byte>, n: nat, s: Source, e: Entry)
    requires Sound(s) && Mirrors(s, e) && AllBehind(x, s) && 1 <= n <= |x|
    ensures Follows(x[..n], Reflect(e))
    decreases s
  {
    if s.File? {
      if Dropped(s) {
        MirrorsFollow(x, n, s.rest, e);
      } else {
        MirrorsFollow(x, n, s.rest, e.next);
        if |e.name| == n { CutOrder(x, s.name, n); }
      }
    }
  }

  /** What mkcramfs makes of the files of a directory is in order, all the way down. */
  lemma {:induction false} MirrorsOrderly(s: Source, e: Entry)
    requires Sound(s) && Mirrors(s, e)
    ensures Orderly(Reflect(e))
    decreases s
  {
    if s.File? {
      if Dropped(s) {
        MirrorsOrderly(s.rest, e);
      } else {
        MirrorsOrderly(s.rest, e.next);
        if IsDir(s.mode) { MirrorsOrderly(s.inside, e.child); }
        SortedBehind(s);
        MirrorsFollow(s.name, |e.name|, s.rest, e.next);
      }
    }
  }

  lemma {:induction false} SizedTight(e: Entry)
    requires Fine(e) && Sized(e)
    ensures Tight(Reflect(e))
  {
    hide ListBytes;
    if e.Entry? {
      SizedTight(e.child);
      SizedTight(e.next);
      TypeKept(e.mode);
      ReflectBytes(e.child);
    }
  }

  // ----- one directory

  /** The first entry with this name, and those behind it. */
  function FirstNamed(l: Listing, q: seq<Byte>): Listing {
    if l.End? || l.name == q then l else FirstNamed(l.rest, q)
  }

  /** The inode at this place is that of the first entry of l, and leads to the same contents. */
  ghost predicate InodeOf(img: seq<Byte>, codec: Codec, blk: nat, at: int, l: Listing)
    requires blk > 0
  {
    && l.Item? && 0 <= at && at + INODE_SIZE <= |img| && Half(img, at) == l.mode && Half(img, at + 2) == l.uid
    && img[at + 7] == l.gid && Third(img, at + 4) == l.size
    && (IsReg(l.mode) || IsLnk(l.mode) ==> ReadFile(img, codec, blk, OffsetAt(img, at), l.size) == Some(l.data))
    && (IsDir(l.mode) ==> ReadsAs(img, codec, blk, OffsetAt(img, at), l.size, l.inside))
  }

  ghost predicate ReadsAs(img: seq<Byte>, codec: Codec, blk: nat, off: int, size: int, l: Listing)
    requires blk > 0
  {
    exists fuel: nat :: ReadDir(img, codec, blk, off, size, fuel) == Some(l)
  }

  /** The entry at the beginning of a directory. */
  lemma EntryAt(img: seq<Byte>, codec: Codec, blk: nat, off: int, size: int, l: Listing)
    requires blk > 0 && ReadsAs(img, codec, blk, off, size, l) && ListingBytes(l) == size != 0
    ensures 0 <= off && INODE_SIZE <= size && off + size <= |img| && l.Item? && InodeOf(img, codec, blk, off, l)
    ensures var n := Word(img, off + 8) % 64 * 4;
            && n == Pad4(|l.name|) && INODE_SIZE + n <= size
            && Stripped(img[off + INODE_SIZE..off + INODE_SIZE + n]) == l.name
            && ReadsAs(img, codec, blk, off + INODE_SIZE + n, size - INODE_SIZE - n, l.rest)
            && ListingBytes(l.rest) == size - INODE_SIZE - n
  {
    hide Word, ReadFile, Half, Third, Stripped, IsReg, IsLnk, IsDir;
    var fuel: nat :| ReadDir(img, codec, blk, off, size, fuel) == Some(l);
    var n := Word(img, off + 8) % 64 * 4;
    StrippedShorter(img[off + INODE_SIZE..off + INODE_SIZE + n]);
    PaddedBelow(|l.name|, n);
    ReadNarrow(img, codec, blk, off + INODE_SIZE + n, size - INODE_SIZE - n, fuel - 1);
    assert ReadsAs(img, codec, blk, off + INODE_SIZE + n, size - INODE_SIZE - n, l.rest);
    if IsDir(l.mode) {
      assert ReadDir(img, codec, blk, OffsetAt(img, off), Third(img, off + 4), fuel - 1) == Some(l.inside);
      assert ReadsAs(img, codec, blk, OffsetAt(img, off), l.size, l.inside);
    }
  }

  /** No name in l is q, when the first character of q is smaller than that of name. */
  lemma {:induction false} NoneSmaller(l: Listing, q: seq<Byte>, name: seq<Byte>)
    requires Follows(name, l) && q != [] && name != [] && q[0] < name[0]
    ensures FirstNamed(l, q).End?
  {
    if l.Item? { NoneSmaller(l.rest, q, name); }
  }

  /** No name in l is q, when q is as long as the first name and stands before it. */
  lemma {:induction false} NoneBefore(l: Listing, q: seq<Byte>, name: seq<Byte>)
    requires Follows(name, l) && |q| == |name| && NameBefore(q, name)
    ensures FirstNamed(l, q).End?
  {
    if l.Item? { NoneBefore(l.rest, q, name); }
  }

  lemma {:induction false} NotBeforeSelf(q: seq<Byte>)
    ensures !NameBefore(q, q)
  {
    if q != [] { NotBeforeSelf(q[1..]); }
  }

  lemma {:induction false} BeforeOrBehind(a: seq<Byte>, b: seq<Byte>)
    ensures a == b || NameBefore(a, b) || NameBefore(b, a)
  {
    if a != [] && b != [] && a[0] == b[0] {
      BeforeOrBehind(a[1..], b[1..]);
      assert a == [a[0]] + a[1..] && b == [b[0]] + b[1..];
    }
  }

  datatype Found = Inode(at: int) | Negative | Broken

  /** A char of the image, which the kernel compares with an unsigned one; on some machines it has a sign. */
  function Char(b: Byte, signed: bool): (c: int)
    ensures c % 256 == b && if signed then -128 <= c < 128 else 0 <= c < 256
  {
    if signed && b >= 128 then b - 256 else b
  }

  /** All names have a character. */
  ghost predicate Named(l: Listing) {
    l.Item? ==> l.name != [] && Named(l.rest)
  }

  /** Entry l is one at which the search for q ends, in a directory flagged as sorted. */
  ghost predicate Beyond(l: Listing, q: seq<Byte>, signed: bool)
    requires l.Item? && l.name != [] && q != []
  {
    q[0] < Char(l.name[0], signed) || (|l.name| == |q| && NameBefore(q, l.name))
  }

  /** The first entry named q, with those behind it, unless the search has ended in front of it. */
  ghost function Sought(l: Listing, q: seq<Byte>, sorted: bool, signed: bool): Listing
    requires Named(l) && q != []
  {
    if l.End? || (sorted && Beyond(l, q, signed)) then End
    else if l.name == q then l else Sought(l.rest, q, sorted, signed)
  }

  lemma {:induction false} OrderlyNamed(l: Listing)
    requires Orderly(l)
    ensures Named(l)
  {
    if l.Item? { OrderlyNamed(l.rest); }
  }

  /** In a directory that is in order, or that is not flagged as sorted, the search does not end too early. */
  lemma {:induction false} SoughtFound(l: Listing, q: seq<Byte>, sorted: bool, signed: bool)
    requires Named(l) && q != [] && (sorted ==> Orderly(l))
    ensures Sought(l, q, sorted, signed) == if FirstNamed(l, q).Item? then FirstNamed(l, q) else End
  {
    if l.Item? {
      if sorted && Beyond(l, q, signed) {
        NotBeforeSelf(q);
        if q[0] < Char(l.name[0], signed) { NoneSmaller(l.rest, q, l.name); } else { NoneBefore(l.rest, q, l.name); }
      } else if l.name != q {
        SoughtFound(l.rest, q, sorted, signed);
      }
    }
  }

  /** Out of order, a file that is there may not be found: b, a. */
  lemma OutOfOrder(b: Listing, a: Listing, signed: bool)
    requires b.Item? && a.Item? && b.name == [98] && b.rest == a && a.name == [97] && a.rest.End?
    ensures Named(b) && Sought(b, [97], true, signed).End? && Sought(b, [97], false, signed) == a
            && FirstNamed(b, [97]) == a
  {}

  /** The loop that takes the padding off a name. */
  method StripName(img: seq<Byte>, base: nat, padded: nat) returns (n: nat)
    requires base + padded <= |img|
    ensures n <= padded && img[base..base + n] == Stripped(img[base..base + padded])
  {
    n := padded;
    while n > 0
      invariant n <= padded && Stripped(img[base..base + n]) == Stripped(img[base..base + padded])
    {
      if img[base + n - 1] != 0 { break; }
      assert img[base..base + n][..n - 1] == img[base..base + n - 1];
      n := n - 1;
    }
  }

  /** cramfs_lookup in the directory of size bytes at off: the inode of the first entry with this name. The flag that
      the directory is sorted ends the search early, whether it is or not. */
  method Lookup(img: seq<Byte>, off: nat, size: nat, q: seq<Byte>, sorted: bool, signed: bool, ghost codec: Codec,
                ghost blk: nat, ghost l: Listing)
    returns (r: Found)
    requires blk > 0 && ReadsAs(img, codec, blk, off, size, l) && ListingBytes(l) == size && Named(l) && q != []
    ensures match Sought(l, q, sorted, signed)
            case End => r == Negative
            case Item(_, _, _, _, _, _, _, _) =>
              r.Inode? && InodeOf(img, codec, blk, r.at, Sought(l, q, sorted, signed))
  {
    hide *;
    Constants();
    var offset := 0;
    ghost var left := l;
    while offset < size
      invariant 0 <= offset <= size && ReadsAs(img, codec, blk, off + offset, size - offset, left)
      invariant ListingBytes(left) == size - offset && Named(left)
                && Sought(l, q, sorted, signed) == Sought(left, q, sorted, signed)
    {
      EntryAt(img, codec, blk, off + offset, size - offset, left);
      OneEntry(left, q, sorted, signed);
      var de := off + offset;
      var namelen := Word(img, de + 8) % 64 * 4;
      PadIs(|left.name|);
      var start := de + INODE_SIZE;
      NameStarts(img, start, namelen, left.name);
      if sorted && q[0] < Char(img[start], signed) { return Negative; }
      offset := offset + INODE_SIZE + namelen;
      if (|q| + 3) / 4 * 4 == namelen {
        var n := StripName(img, start, namelen);
        if n == 0 { return Broken; }
        if n == |q| {
          if img[start..start + n] == q { return Inode(de); }
          if sorted && NameBefore(q, img[start..start + n]) { return Negative; }
        }
      }
      left := left.rest;
    }
    NothingLeft(left, q, sorted, signed);
    return Negative;
  }

  lemma NameStarts(img: seq<Byte>, base: nat, n: nat, name: seq<Byte>)
    requires base + n <= |img| && Stripped(img[base..base + n]) == name != []
    ensures n > 0 && img[base] == name[0]
  {
    StrippedPrefix(img[base..base + n]);
  }

  lemma Constants()
    ensures INODE_SIZE == 12
  {}

  lemma PadIs(n: nat)
    ensures Pad4(n) == (n + 3) / 4 * 4
  {}

  lemma OneEntry(l: Listing, q: seq<Byte>, sorted: bool, signed: bool)
    requires l.Item? && Named(l) && q != []
    ensures l.name != [] && Named(l.rest)
    ensures Sought(l, q, sorted, signed)
            == if sorted && (q[0] < Char(l.name[0], signed) || (|l.name| == |q| && NameBefore(q, l.name))) then End
               else if l.name == q then l else Sought(l.rest, q, sorted, signed)
    ensures l.name == q ==> !NameBefore(q, l.name)
  {
    NotBeforeSelf(q);
  }

  lemma NothingLeft(l: Listing, q: seq<Byte>, sorted: bool, signed: bool)
    requires ListingBytes(l) == 0 && q != []
    ensures l.End? && Sought(l, q, sorted, signed).End?
  {}

  lemma {:induction false} StrippedPrefix(s: seq<Byte>)
    ensures Stripped(s) <= s
  {
    if s != [] && s[|s| - 1] == 0 { StrippedPrefix(s[..|s| - 1]); }
  }

  // ----- the whole tree

  /** Where a path leads in a tree: from the first entry that has a name to the directory that is searched for the next
      one; End if there is no such file. */
  function Resolve(l: Listing, path: seq<seq<Byte>>): Listing
    requires |path| >= 1
    decreases |path|
  {
    var item := FirstNamed(l, path[0]);
    if item.End? || |path| == 1 then item
    else if IsDir(item.mode) then Resolve(item.inside, path[1..]) else End
  }

  lemma {:induction false} NamedFacts(l: Listing, q: seq<Byte>)
    requires Orderly(l) && Tight(l)
    ensures var item := FirstNamed(l, q);
            item.Item? ==> Orderly(item.inside) && Tight(item.inside)
                           && (IsDir(item.mode) ==> ListingBytes(item.inside) == item.size)
  {
    if l.Item? && l.name != q { NamedFacts(l.rest, q); }
  }

  /** The lookups for the components of a path, each in the directory found before. */
  method Walk(img: seq<Byte>, off: nat, size: nat, path: seq<seq<Byte>>, sorted: bool, signed: bool,
              ghost codec: Codec, ghost blk: nat, ghost l: Listing)
    returns (r: Found)
    requires blk > 0 && ReadsAs(img, codec, blk, off, size, l) && ListingBytes(l) == size && Orderly(l) && Tight(l)
    requires |path| >= 1 && forall k :: 0 <= k < |path| ==> path[k] != []
    ensures match Resolve(l, path)
            case End => r == Negative
            case Item(_, _, _, _, _, _, _, _) => r.Inode? && InodeOf(img, codec, blk, r.at, Resolve(l, path))
    decreases |path|
  {
    hide ReadsAs, Orderly, Tight, ListingBytes, Half, Third, OffsetAt, IsDir, IsReg, IsLnk, FirstNamed, ReadFile, Named,
         Sought;
    OrderlyNamed(l);
    SoughtFound(l, path[0], sorted, signed);
    r := Lookup(img, off, size, path[0], sorted, signed, codec, blk, l);
    NamedFacts(l, path[0]);
    if r.Inode? && |path| > 1 {
      if !IsDir(Half(img, r.at)) { return Negative; }
      r := Walk(img, OffsetAt(img, r.at), Third(img, r.at + 4), path[1..], sorted, signed, codec, blk,
                FirstNamed(l, path[0]).inside);
    }
  }

  /** An image that gives a tree back is one in which every path can be followed. */
  lemma TreeWalks(s: Source, img: seq<Byte>, codec: Codec, blk: nat, off: int, root: Entry)
    requires Sound(s) && root.Entry? && Mirrors(s, root.child) && Fine(root.child) && root.size == ListBytes(root.child)
    requires blk > 0 && ReadTree(img, codec, blk, off, root) == Some(Reflect(root.child))
    ensures var l := Reflect(root.child);
            && ReadsAs(img, codec, blk, off, root.size % SIZE_LIMIT, l) && ListingBytes(l) == root.size % SIZE_LIMIT
            && Orderly(l) && Tight(l)
  {
    hide ReadDir, Reflect, Fine, ListBytes, ListingBytes, Nodes, Sized, Mirrors, Orderly, Tight;
    ReadNarrow(img, codec, blk, off, root.size % SIZE_LIMIT, |Nodes(root.child)|);
    ReflectBytes(root.child);
    NarrowSized(root.child);
    SizedTight(root.child);
    MirrorsOrderly(s, root.child);
  }

  // ----- names

  /** The first file of the list that is kept and has this name. */
  function KeptFile(s: Source, name: seq<Byte>): (f: Source)
    ensures Sound(s) ==> Sound(f)
    ensures f.File? ==> f.name == name && !Dropped(f)
  {
    if s.NoFile? || (s.name == name && !Dropped(s)) then s else KeptFile(s.rest, name)
  }

  lemma {:induction false} BeforeOnce(a: seq<Byte>, b: seq<Byte>)
    requires NameBefore(a, b)
    ensures !NameBefore(b, a) && a != b
  {
    if a != [] && a[0] == b[0] {
      BeforeOnce(a[1..], b[1..]);
    }
  }

  lemma {:induction false} PartBefore(a: seq<Byte>, n: nat)
    requires n < |a|
    ensures NameBefore(a[..n], a)
  {
    if n > 0 {
      PartBefore(a[1..], n - 1);
      assert a[..n][1..] == a[1..][..n - 1];
    }
  }

  lemma {:induction false} KeptBehind(x: seq<Byte>, s: Source, name: seq<Byte>)
    requires AllBehind(x, s) && KeptFile(s, name).File?
    ensures NameBefore(x, name)
  {
    if s.name != name || Dropped(s) { KeptBehind(x, s.rest, name); }
  }

  /** A file whose name fits is found under its name, whatever has become of the longer names in its directory. */
  lemma {:induction false} FitsFound(s: Source, e: Entry, name: seq<Byte>) returns (at: Entry)
    requires Sound(s) && Mirrors(s, e) && KeptFile(s, name).File? && |name| <= MAXPATHLEN
    ensures at.Entry? && at.name == name && FirstNamed(Reflect(e), name) == Reflect(at)
            && MirrorsHere(KeptFile(s, name), at)
    decreases s
  {
    if Dropped(s) {
      at := FitsFound(s.rest, e, name);
    } else if s.name == name {
      at := e;
    } else {
      at := FitsFound(s.rest, e.next, name);
      SortedBehind(s);
      KeptBehind(s.name, s.rest, name);
      BeforeOnce(s.name, name);
      if e.name == name { PartBefore(s.name, |name|); }
    }
  }

  // ----- an example

  /** 251 letters. */
  function ManyA(): (w: seq<Byte>)
    ensures |w| == 251 && forall k :: 0 <= k < 251 ==> w[k] == 97
  {
    seq(251, _ => 97)
  }

  /** These letters, and what is behind them. */
  function LongA(x: seq<Byte>): (w: seq<Byte>)
    ensures |w| == 251 + |x| && w[251..] == x && w[..251] == ManyA()
    ensures forall k :: 0 <= k < |w| ==> w[k] == 97 || w[k] in x
  {
    ManyA() + x
  }

  /** Two empty files. */
  function TwoFiles(x: seq<Byte>, y: seq<Byte>): Source {
    File(LongA(x), true, 0x8000, 0, 0, 0, 0, true, [], NoFile,
         File(LongA(y), true, 0x8000, 0, 0, 0, 0, true, [], NoFile, NoFile))
  }

  lemma TwoSound(x: seq<Byte>, y: seq<Byte>)
    requires NameBefore(x, y) && forall b :: b in x || b in y ==> b != 0 && b != 47
    ensures Sound(TwoFiles(x, y))
  {
    BeforeBehind(ManyA(), x, y);
  }

  /** The directories of the example below are in the order of cramsort. */
  lemma AccentsSound()
    ensures Sound(TwoFiles([98], [0xC3, 0xA9])) && Sound(TwoFiles([0xC3, 0xA9], [0xC3, 0xAA]))
  {
    TwoSound([98], [0xC3, 0xA9]);
    TwoSound([0xC3, 0xA9], [0xC3, 0xAA]);
  }

  /** A name of 251 letters and an accented one of two bytes is cut in front of that. */
  lemma CutAccent(x: seq<Byte>, n: nat)
    requires |x| == 2 && x[0] >= 0xC0 && Trail(x[1]) && n <= |LongA(x)| && Cut(LongA(x), n)
    ensures n == 251
  {
    var name := LongA(x);
    assert name[251] == name[251..][0] && name[252] == name[251..][1];
    assert !Trail(name[251]);
  }

  /** Of two names of 251 letters and one more, b and an e with an accent, the second is cut, and now it belongs in
      front of the first: the directory is not sorted. If there are accents on both, both are cut to the same name, and
      the second file is not found. */
  lemma CutExample(e: Entry, d: Entry)
    requires Sound(TwoFiles([98], [0xC3, 0xA9])) && Mirrors(TwoFiles([98], [0xC3, 0xA9]), e)
    requires Sound(TwoFiles([0xC3, 0xA9], [0xC3, 0xAA])) && Mirrors(TwoFiles([0xC3, 0xA9], [0xC3, 0xAA]), d)
    ensures e.Entry? && e.next.Entry? && NameBefore(e.next.name, e.name)
    ensures d.Entry? && d.next.Entry? && d.name == d.next.name == ManyA()
            && FirstNamed(Reflect(d), ManyA()) == Reflect(d)
  {
    hide *;
    Accents();
    TwoMirrored([98], [0xC3, 0xA9], e);
    TwoMirrored([0xC3, 0xA9], [0xC3, 0xAA], d);
    CutShort([98], |e.name|);
    CutAccent([0xC3, 0xA9], |e.next.name|);
    CutAccent([0xC3, 0xA9], |d.name|);
    CutAccent([0xC3, 0xAA], |d.next.name|);
    PartBefore(LongA([98]), 251);
    assert e.name == LongA([98]) && e.next.name == LongA([98])[..251];
    FirstFound(d);
  }

  lemma Accents()
    ensures Trail(0xA9) && Trail(0xAA)
  {}

  lemma FirstFound(e: Entry)
    requires e.Entry?
    ensures FirstNamed(Reflect(e), e.name) == Reflect(e)
  {}

  lemma CutShort(x: seq<Byte>, n: nat)
    requires |x| <= 1 && n <= |LongA(x)| && Cut(LongA(x), n)
    ensures n == |LongA(x)|
  {}

  lemma TwoMirrored(x: seq<Byte>, y: seq<Byte>, e: Entry)
    requires Sound(TwoFiles(x, y)) && Mirrors(TwoFiles(x, y), e)
    ensures e.Entry? && e.next.Entry?
    ensures |e.name| <= |LongA(x)| && e.name == LongA(x)[..|e.name|] && Cut(LongA(x), |e.name|)
    ensures |e.next.name| <= |LongA(y)| && e.next.name == LongA(y)[..|e.next.name|] && Cut(LongA(y), |e.next.name|)
  {
    hide LongA, Cut, NameBefore;
    NotDots(x);
    NotDots(y);
  }

  lemma NotDots(x: seq<Byte>)
    ensures LongA(x) != [46] && LongA(x) != [46, 46]
  {}
}
