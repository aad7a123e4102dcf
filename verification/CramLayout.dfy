/** The layout of a cramfs image (pkg/cramfs/mkcramfs.c; struct cramfs_inode of cramfs_fs.h, with sizes of 24 bits,
    little-endian): entries of the directory tree and what they look like in the image. */
module CramLayout {
  type Byte = x: int | 0 <= x < 256

  const SIZE_LIMIT := 0x100_0000
  const OFFSET_LIMIT := 0x1000_0000
  const MAXPATHLEN := 252
  const INODE_SIZE := 12
  const SUPER_SIZE := 76
  const WORD := 0x1_0000_0000

  /** struct entry: child is the first entry of a directory, next the one behind this in the same directory. The id
      stands for the address; data is what path or uncompressed lead to, and empty where both are null. */
  datatype Entry = Null
    | Entry(id: nat, name: seq<Byte>, mode: nat, uid: nat, gid: nat, size: nat, data: seq<Byte>,
        child: Entry, next: Entry)

  predicate IsDir(mode: nat) { mode / 0x1000 % 16 == 4 }

  predicate IsReg(mode: nat) { mode / 0x1000 % 16 == 8 }

  predicate IsLnk(mode: nat) { mode / 0x1000 % 16 == 10 }

  /** The number of bytes of a name, padded to words. */
  function Pad4(n: nat): (m: nat)
    ensures m % 4 == 0 && n <= m < n + 4
  {
    (n + 3) / 4 * 4
  }

  function EntryBytes(e: Entry): (n: nat)
    requires e.Entry?
    ensures n % 4 == 0 && n >= INODE_SIZE
  {
    INODE_SIZE + Pad4(|e.name|)
  }

  /** The bytes that a directory with first entry e takes. */
  function ListBytes(e: Entry): (n: nat)
    ensures n % 4 == 0
  {
    if e.Null? then 0 else EntryBytes(e) + ListBytes(e.next)
  }

  /** Something that write_data writes: path or uncompressed is not null. Links have a buffer even when it is empty. */
  predicate HasData(e: Entry)
    requires e.Entry?
  {
    e.data != [] || IsLnk(e.mode)
  }

  /** What parse_directory makes: names fit, directories know their sizes, files and links have their contents. */
  ghost predicate Fine(e: Entry) {
    e.Entry? ==> FineHere(e) && Fine(e.child) && Fine(e.next)
  }

  ghost predicate FineHere(e: Entry) {
    && e.Entry? && 1 <= |e.name| <= MAXPATHLEN && (forall i :: 0 <= i < |e.name| ==> e.name[i] != 0)
    && (if IsDir(e.mode) then e.size == ListBytes(e.child) else e.child.Null?)
    && (if (IsReg(e.mode) || IsLnk(e.mode)) && e.size > 0 then |e.data| == e.size < SIZE_LIMIT else e.data == [])
  }

  // ----- the entries of a tree

  /** All entries, each before its children and those before the entries behind it. */
  function Nodes(e: Entry): seq<Entry> {
    if e.Null? then [] else [e] + Nodes(e.child) + Nodes(e.next)
  }

  ghost function Ids(e: Entry): set<nat> {
    if e.Null? then {} else {e.id} + Ids(e.child) + Ids(e.next)
  }

  /** Different entries have different ids. */
  ghost predicate Separate(e: Entry) {
    e.Entry? ==> e.id !in Ids(e.child) && e.id !in Ids(e.next) && Ids(e.child) !! Ids(e.next) && Separate(e.child)
                 && Separate(e.next)
  }

  lemma {:induction false} NodeId(e: Entry, n: Entry)
    requires n in Nodes(e)
    ensures n.Entry? && n.id in Ids(e)
  {
    if n != e {
      if n in Nodes(e.child) { NodeId(e.child, n); } else { NodeId(e.next, n); }
    }
  }

  lemma {:induction false} SameNode(e: Entry, m: Entry, n: Entry)
    requires Separate(e) && m in Nodes(e) && n in Nodes(e) && m.Entry? && n.Entry? && m.id == n.id
    ensures m == n
  {
    if m in Nodes(e.child) { NodeId(e.child, m); }
    if n in Nodes(e.child) { NodeId(e.child, n); }
    if m in Nodes(e.next) { NodeId(e.next, m); }
    if n in Nodes(e.next) { NodeId(e.next, n); }
    if m in Nodes(e.child) && n in Nodes(e.child) { SameNode(e.child, m, n); }
    if m in Nodes(e.next) && n in Nodes(e.next) { SameNode(e.next, m, n); }
  }

  /** Everything below a node is in the tree. */
  lemma {:induction false} NodesBelow(e: Entry, n: Entry, m: Entry)
    requires n in Nodes(e) && m in Nodes(n)
    ensures m in Nodes(e)
  {
    if n != e {
      if n in Nodes(e.child) { NodesBelow(e.child, n, m); } else { NodesBelow(e.next, n, m); }
    }
  }

  lemma {:induction false} FineNode(e: Entry, n: Entry)
    requires Fine(e) && n in Nodes(e)
    ensures Fine(n) && n.Entry?
  {
    if n != e {
      if n in Nodes(e.child) { FineNode(e.child, n); } else { FineNode(e.next, n); }
    }
  }

  /** No directory has more bytes of entries than the size in an inode can say. */
  ghost predicate Sized(e: Entry) {
    e.Entry? ==> (IsDir(e.mode) ==> e.size < SIZE_LIMIT) && Sized(e.child) && Sized(e.next)
  }

  lemma {:induction false} SizedNodes(e: Entry)
    ensures Sized(e) <==> forall n :: n in Nodes(e) && n.Entry? && IsDir(n.mode) ==> n.size < SIZE_LIMIT
  {
    if e.Entry? {
      SizedNodes(e.child);
      SizedNodes(e.next);
      assert e in Nodes(e);
      forall n | n in Nodes(e.child) || n in Nodes(e.next) ensures n in Nodes(e) {}
    }
  }

  lemma {:induction false} SeparateNode(e: Entry, n: Entry)
    requires Separate(e) && n in Nodes(e)
    ensures Separate(n) && n.Entry? && Ids(n) <= Ids(e)
  {
    if n != e {
      if n in Nodes(e.child) { SeparateNode(e.child, n); } else { SeparateNode(e.next, n); }
    }
  }

  /** The subdirectories with entries among a list of entries, in order. */
  function Dirs(e: Entry): (d: seq<Entry>)
    ensures forall i :: 0 <= i < |d| ==> d[i].Entry? && d[i].child.Entry?
  {
    if e.Null? then [] else (if e.child.Entry? then [e] else []) + Dirs(e.next)
  }

  lemma {:induction false} DirsInNodes(e: Entry, d: Entry)
    requires d in Dirs(e)
    ensures d in Nodes(e)
  {
    if d != e { DirsInNodes(e.next, d); }
  }

  /** All directories with entries below a list of entries, each before those inside it. */
  function PreDirs(e: Entry): seq<Entry> {
    if e.Null? then [] else (if e.child.Entry? then [e] + PreDirs(e.child) else []) + PreDirs(e.next)
  }

  // ----- bytes

  function Le16(x: nat): (s: seq<Byte>)
    ensures |s| == 2
  {
    [x % 256, x / 256 % 256]
  }

  function Word(img: seq<Byte>, p: int): (w: nat)
    requires 0 <= p && p + 4 <= |img|
    ensures w < 0x1_0000_0000
  {
    var a: int, b: int, c: int, d: int := img[p], img[p + 1], img[p + 2], img[p + 3];
    a + 256 * (b + 256 * (c + 256 * d))
  }

  /** A word in memory. */
  function Le32(x: nat): (s: seq<Byte>)
    ensures |s| == 4
  {
    [x % 256, x / 256 % 256, x / 256 / 256 % 256, x / 256 / 256 / 256 % 256]
  }

  lemma WordStored(img: seq<Byte>, p: int, x: nat)
    requires 0 <= p && p + 4 <= |img| && img[p..p + 4] == Le32(x) && x < 0x1_0000_0000
    ensures Word(img, p) == x
  {
    var a, b := x / 256, x / 256 / 256;
    assert img[p] == img[p..p + 4][0] == x % 256;
    assert img[p + 1] == img[p..p + 4][1] == a % 256;
    assert img[p + 2] == img[p..p + 4][2] == b % 256;
    assert img[p + 3] == img[p..p + 4][3] == b / 256 % 256;
    assert x == a * 256 + x % 256 && a == b * 256 + a % 256 && b == b / 256 * 256 + b % 256;
    assert b / 256 < 256;
  }

  lemma WordAgrees(img: seq<Byte>, img': seq<Byte>, p: int)
    requires 0 <= p && p + 4 <= |img| && p + 4 <= |img'| && forall i :: p <= i < p + 4 ==> img'[i] == img[i]
    ensures Word(img', p) == Word(img, p)
  {}

  /** mode, uid, size and gid: the first eight bytes of an inode. */
  function Head(e: Entry): (s: seq<Byte>)
    requires e.Entry?
    ensures |s| == 8
  {
    Le16(e.mode) + Le16(e.uid) + [e.size % 256, e.size / 256 % 256, e.size / 65536 % 256] + [e.gid % 256]
  }

  function Zeros(n: nat): (s: seq<Byte>)
    ensures |s| == n
  {
    seq(n, _ => 0)
  }

  function Padded(name: seq<Byte>): (s: seq<Byte>)
    ensures |s| == Pad4(|name|)
  {
    name + Zeros(Pad4(|name|) - |name|)
  }

  /** An entry as write_directory_structure first writes it. */
  function EntryImage(e: Entry): (s: seq<Byte>)
    requires e.Entry?
    ensures |s| == EntryBytes(e)
  {
    Head(e) + Le32(Pad4(|e.name|) / 4) + Padded(e.name)
  }

  /** The offset an inode at p leads to. */
  function OffsetAt(img: seq<Byte>, p: int): nat
    requires 0 <= p && p + INODE_SIZE <= |img|
  {
    Word(img, p + 8) / 64 * 4
  }

  // ----- entries in the image

  const FREE := -1

  /** Entry e lies at off, in bytes of its own; where its inode leads to is not said. */
  ghost predicate EntryAt(img: seq<Byte>, own: seq<int>, dirOff: seq<int>, e: Entry, off: int) {
    && e.Entry? && 0 <= off && off + EntryBytes(e) <= |img| == |own| && e.id < |dirOff| && dirOff[e.id] == off
    && (forall p :: off <= p < off + EntryBytes(e) ==> own[p] == e.id)
    && img[off..off + 8] == Head(e) && Word(img, off + 8) % 64 == Pad4(|e.name|) / 4
    && img[off + INODE_SIZE..off + EntryBytes(e)] == Padded(e.name)
  }

  /** The list of entries e lies at off, and so do, where their inodes lead to, the contents of all directories
      except those that are still open. */
  ghost predicate Stored(img: seq<Byte>, own: seq<int>, dirOff: seq<int>, e: Entry, off: int, open: set<nat>) {
    e.Entry? ==>
      && EntryAt(img, own, dirOff, e, off)
      && (e.child.Null? && !HasData(e) ==> OffsetAt(img, off) == 0)
      && (e.child.Entry? && e.id !in open ==> Stored(img, own, dirOff, e.child, OffsetAt(img, off), open))
      && Stored(img, own, dirOff, e.next, off + EntryBytes(e), open)
  }

  /** p is a byte of the offset of an inode in w. */
  ghost predicate InWord(own: seq<int>, dirOff: seq<int>, w: set<nat>, p: int) {
    && 0 <= p < |own| && 0 <= own[p] < |dirOff| && own[p] in w
    && dirOff[own[p]] + 8 <= p < dirOff[own[p]] + INODE_SIZE
  }

  /** What has been written stays, except for the offsets of the inodes in w. */
  ghost predicate Frame(img: seq<Byte>, img': seq<Byte>, own: seq<int>, own': seq<int>, dirOff: seq<int>,
                        dirOff': seq<int>, w: set<nat>) {
    && |img'| == |img| == |own| == |own'| && |dirOff'| == |dirOff|
    && (forall p :: 0 <= p < |own| && own[p] != FREE ==> own'[p] == own[p]
                                                         && (img'[p] == img[p] || InWord(own, dirOff, w, p)))
    && (forall p :: 0 <= p < |own| && 0 <= own[p] < |dirOff| ==> dirOff'[own[p]] == dirOff[own[p]])
    && (forall i :: i in w && i < |dirOff| && 0 <= dirOff[i] && dirOff[i] + INODE_SIZE <= |img| ==>
          Word(img', dirOff[i] + 8) % 64 == Word(img, dirOff[i] + 8) % 64)
  }

  lemma FrameTrans(img0: seq<Byte>, img1: seq<Byte>, img2: seq<Byte>, own0: seq<int>, own1: seq<int>, own2: seq<int>,
                   d0: seq<int>, d1: seq<int>, d2: seq<int>, w: set<nat>)
    requires Frame(img0, img1, own0, own1, d0, d1, w) && Frame(img1, img2, own1, own2, d1, d2, w)
    requires forall i :: i in w && i < |d0| && 0 <= d0[i] && d0[i] + INODE_SIZE <= |img0| ==> d1[i] == d0[i]
    ensures Frame(img0, img2, own0, own2, d0, d2, w)
  {
    forall p | 0 <= p < |own0| && own0[p] != FREE
      ensures own2[p] == own0[p] && (img2[p] == img0[p] || InWord(own0, d0, w, p))
    {
      assert own1[p] == own0[p];
      if img2[p] != img1[p] { assert InWord(own1, d1, w, p); }
    }
  }

  lemma EntryKept(img: seq<Byte>, img': seq<Byte>, own: seq<int>, own': seq<int>, dirOff: seq<int>, dirOff': seq<int>,
                  w: set<nat>, e: Entry, off: int)
    requires EntryAt(img, own, dirOff, e, off) && Frame(img, img', own, own', dirOff, dirOff', w)
    ensures EntryAt(img', own', dirOff', e, off)
    ensures e.id !in w ==> OffsetAt(img', off) == OffsetAt(img, off)
  {
    var n := EntryBytes(e);
    forall p | off <= p < off + n
      ensures own'[p] == e.id && (p < off + 8 || off + INODE_SIZE <= p || e.id !in w ==> img'[p] == img[p])
    {
      assert own[p] == e.id;
    }
    assert img'[off..off + 8] == img[off..off + 8];
    assert img'[off + INODE_SIZE..off + n] == img[off + INODE_SIZE..off + n];
    assert own[off] == e.id;
    if e.id !in w { WordAgrees(img, img', off + 8); }
  }

  /** What is stored stays stored, whatever the inodes of files lead to. */
  lemma {:induction false} StoredKept(img: seq<Byte>, img': seq<Byte>, own: seq<int>, own': seq<int>, dirOff: seq<int>,
                                      dirOff': seq<int>, w: set<nat>, e: Entry, off: int, open: set<nat>)
    requires Stored(img, own, dirOff, e, off, open) && Frame(img, img', own, own', dirOff, dirOff', w)
    requires forall n :: n in Nodes(e) && n.Entry? && n.id in w ==> n.child.Null? && HasData(n)
    ensures Stored(img', own', dirOff', e, off, open)
  {
    if e.Entry? {
      assert e in Nodes(e);
      EntryKept(img, img', own, own', dirOff, dirOff', w, e, off);
      if e.child.Entry? && e.id !in open {
        StoredKept(img, img', own, own', dirOff, dirOff', w, e.child, OffsetAt(img, off), open);
      }
      StoredKept(img, img', own, own', dirOff, dirOff', w, e.next, off + EntryBytes(e), open);
    }
  }

  lemma {:induction false} StoredMore(img: seq<Byte>, own: seq<int>, dirOff: seq<int>, e: Entry, off: int,
                                      open: set<nat>, open': set<nat>)
    requires Stored(img, own, dirOff, e, off, open) && open <= open'
    ensures Stored(img, own, dirOff, e, off, open')
  {
    if e.Entry? {
      if e.child.Entry? && e.id !in open' { StoredMore(img, own, dirOff, e.child, OffsetAt(img, off), open, open'); }
      StoredMore(img, own, dirOff, e.next, off + EntryBytes(e), open, open');
    }
  }

  /** The contents of directory d have been written, at o, and its inode leads there: it is no longer open, its
      subdirectories are. */
  lemma {:induction false} Closed(img: seq<Byte>, img': seq<Byte>, own: seq<int>, own': seq<int>, dirOff: seq<int>,
                                  dirOff': seq<int>, e: Entry, off: int, d: Entry, o: int, open: set<nat>,
                                  inner: set<nat>)
    requires d.Entry? && d.child.Entry? && d.id < |dirOff|
    requires Stored(img, own, dirOff, e, off, open) && Frame(img, img', own, own', dirOff, dirOff', {d.id})
    requires Stored(img', own', dirOff', d.child, o, inner)
    requires forall n :: n in Nodes(e) && n.Entry? && n.id == d.id ==> n == d
    requires 0 <= dirOff[d.id] && dirOff[d.id] + INODE_SIZE <= |img'| && OffsetAt(img', dirOff[d.id]) == o
    ensures Stored(img', own', dirOff', e, off, (open - {d.id}) + inner)
    decreases e
  {
    var open' := (open - {d.id}) + inner;
    if e.Entry? {
      EntryKept(img, img', own, own', dirOff, dirOff', {d.id}, e, off);
      assert e in Nodes(e);
      if e.id == d.id {
        assert e == d;
        if e.id !in open' { StoredMore(img', own', dirOff', e.child, o, inner, open'); }
      } else if e.child.Entry? && e.id !in open' {
        Closed(img, img', own, own', dirOff, dirOff', e.child, OffsetAt(img, off), d, o, open, inner);
      }
      Closed(img, img', own, own', dirOff, dirOff', e.next, off + EntryBytes(e), d, o, open, inner);
    }
  }
}
