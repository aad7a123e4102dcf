/** Writing the directories of a cramfs image (pkg/cramfs/mkcramfs.c: set_data_offset, write_directory_structure). */
module CramImage {
  import opened Results
  import opened CramLayout

  /** The bytes that the contents of these directories take. */
  function DirBytes(ds: seq<Entry>): (n: nat)
    ensures n % 4 == 0
  {
    if ds == [] then 0 else (if ds[0].Entry? then ListBytes(ds[0].child) else 0) + DirBytes(ds[1..])
  }

  lemma {:induction false} DirBytesSum(a: seq<Entry>, b: seq<Entry>)
    ensures DirBytes(a + b) == DirBytes(a) + DirBytes(b)
  {
    if a == [] {
      assert a + b == b;
    } else {
      assert (a + b)[1..] == a[1..] + b;
      DirBytesSum(a[1..], b);
    }
  }

  lemma {:induction false} PreDirsAre(e: Entry)
    ensures forall i :: 0 <= i < |PreDirs(e)| ==> PreDirs(e)[i].Entry? && PreDirs(e)[i].child.Entry?
                                                  && PreDirs(e)[i] in Nodes(e)
  {
    if e.Entry? {
      PreDirsAre(e.child);
      PreDirsAre(e.next);
    }
  }

  /** All bytes of the directories below a list of entries. */
  function TreeBytes(e: Entry): nat {
    ListBytes(e) + DirBytes(PreDirs(e))
  }

  /** The directories of a stack, top first, with everything below them. */
  ghost function Below(stack: seq<Entry>): seq<Entry>
    requires forall i :: 0 <= i < |stack| ==> stack[i].Entry?
  {
    if stack == [] then []
    else var d := stack[|stack| - 1]; [d] + PreDirs(d.child) + Below(stack[..|stack| - 1])
  }

  function Reversed(s: seq<Entry>): (r: seq<Entry>)
    ensures |r| == |s| && forall i :: 0 <= i < |s| ==> r[i] == s[|s| - 1 - i]
  {
    seq(|s|, i requires 0 <= i < |s| => s[|s| - 1 - i])
  }

  lemma ReversedTop(stack: seq<Entry>, e: Entry, ds: seq<Entry>)
    ensures var s := stack + Reversed([e] + ds); s != [] && s[|s| - 1] == e && s[..|s| - 1] == stack + Reversed(ds)
  {
    var s := stack + Reversed([e] + ds);
    assert s[|s| - 1] == e;
    forall i | 0 <= i < |s| - 1 ensures s[..|s| - 1][i] == (stack + Reversed(ds))[i] {}
  }

  lemma ReversedNone(stack: seq<Entry>)
    ensures stack + Reversed([]) == stack
  {}

  lemma Regroup(a: seq<Entry>, b: seq<Entry>, c: seq<Entry>, d: seq<Entry>)
    ensures a + (b + (c + d)) == ((a + b) + c) + d
  {}

  lemma AllEntries(stack: seq<Entry>, ds: seq<Entry>)
    requires (forall i :: 0 <= i < |stack| ==> stack[i].Entry?) && forall i :: 0 <= i < |ds| ==> ds[i].Entry?
    ensures forall i :: 0 <= i < |stack + Reversed(ds)| ==> (stack + Reversed(ds))[i].Entry?
  {}

  lemma DirsParts(e: Entry)
    requires e.Entry?
    ensures if e.child.Entry? then Dirs(e) == [e] + Dirs(e.next)
            && PreDirs(e) == ([e] + PreDirs(e.child)) + PreDirs(e.next)
            else Dirs(e) == Dirs(e.next) && PreDirs(e) == PreDirs(e.next)
  {}

  lemma BelowTop(stack: seq<Entry>)
    requires stack != [] && forall i :: 0 <= i < |stack| ==> stack[i].Entry?
    ensures var d := stack[|stack| - 1]; Below(stack) == [d] + (PreDirs(d.child) + Below(stack[..|stack| - 1]))
  {}

  /** Pushing the subdirectories of a list in reverse order lets them be popped in order. */
  lemma {:induction false} BelowDirs(stack: seq<Entry>, e: Entry)
    requires forall i :: 0 <= i < |stack| ==> stack[i].Entry?
    ensures forall i :: 0 <= i < |stack + Reversed(Dirs(e))| ==> (stack + Reversed(Dirs(e)))[i].Entry?
    ensures Below(stack + Reversed(Dirs(e))) == PreDirs(e) + Below(stack)
  {
    hide Below, PreDirs, Reversed, Dirs;
    AllEntries(stack, Dirs(e));
    if e.Null? {
      NoDirs();
      ReversedNone(stack);
      assert [] + Below(stack) == Below(stack);
    } else {
      DirsParts(e);
      BelowDirs(stack, e.next);
      if e.child.Entry? {
        ReversedTop(stack, e, Dirs(e.next));
        BelowTop(stack + Reversed(Dirs(e)));
        Regroup([e], PreDirs(e.child), PreDirs(e.next), Below(stack));
      }
    }
  }

  lemma NoDirs()
    ensures Dirs(Null) == [] && PreDirs(Null) == []
  {}

  // ----- a list of entries while it is written

  ghost function Length(e: Entry): nat {
    if e.Null? then 0 else 1 + Length(e.next)
  }

  /** The entries from e, at off, up to rest, at end, have been written. */
  ghost predicate Listed(img: seq<Byte>, own: seq<int>, dirOff: seq<int>, e: Entry, off: int, rest: Entry, end: int)
    decreases e
  {
    if e == rest then off == end
    else e.Entry? && EntryAt(img, own, dirOff, e, off) && OffsetAt(img, off) == 0
         && Listed(img, own, dirOff, e.next, off + EntryBytes(e), rest, end)
  }

  lemma {:induction false} ListedLength(img: seq<Byte>, own: seq<int>, dirOff: seq<int>, e: Entry, off: int,
                                        rest: Entry, end: int)
    requires Listed(img, own, dirOff, e, off, rest, end)
    ensures Length(rest) <= Length(e)
    decreases e
  {
    if e != rest { ListedLength(img, own, dirOff, e.next, off + EntryBytes(e), rest, end); }
  }

  lemma {:induction false} ListedMore(img: seq<Byte>, own: seq<int>, dirOff: seq<int>, e: Entry, off: int, rest: Entry,
                                      end: int)
    requires Listed(img, own, dirOff, e, off, rest, end) && rest.Entry?
    requires EntryAt(img, own, dirOff, rest, end) && OffsetAt(img, end) == 0
    ensures Listed(img, own, dirOff, e, off, rest.next, end + EntryBytes(rest))
    decreases e
  {
    ListedLength(img, own, dirOff, e, off, rest, end);
    assert e != rest.next;
    if e != rest { ListedMore(img, own, dirOff, e.next, off + EntryBytes(e), rest, end); }
  }

  lemma {:induction false} ListedKept(img: seq<Byte>, img': seq<Byte>, own: seq<int>, own': seq<int>, dirOff: seq<int>,
                                      dirOff': seq<int>, e: Entry, off: int, rest: Entry, end: int)
    requires Listed(img, own, dirOff, e, off, rest, end) && Frame(img, img', own, own', dirOff, dirOff', {})
    ensures Listed(img', own', dirOff', e, off, rest, end)
    decreases e
  {
    if e != rest {
      EntryKept(img, img', own, own', dirOff, dirOff', {}, e, off);
      ListedKept(img, img', own, own', dirOff, dirOff', e.next, off + EntryBytes(e), rest, end);
    }
  }

  /** The ids of the entries of a list itself. */
  ghost function ListIds(e: Entry): set<nat> {
    if e.Null? then {} else {e.id} + ListIds(e.next)
  }

  ghost function OpenIds(e: Entry): set<nat> {
    if e.Null? then {} else (if e.child.Entry? then {e.id} else {}) + OpenIds(e.next)
  }

  lemma {:induction false} ListedStored(img: seq<Byte>, own: seq<int>, dirOff: seq<int>, e: Entry, off: int, end: int,
                                        open: set<nat>)
    requires Listed(img, own, dirOff, e, off, Null, end) && OpenIds(e) <= open
    ensures Stored(img, own, dirOff, e, off, open) && end == off + ListBytes(e)
    decreases e
  {
    if e.Entry? { ListedStored(img, own, dirOff, e.next, off + EntryBytes(e), end, open); }
  }

  lemma {:induction false} ListInIds(e: Entry)
    ensures ListIds(e) <= Ids(e) && OpenIds(e) <= ListIds(e)
  {
    if e.Entry? { ListInIds(e.next); }
  }

  /** Where entry d lies: in bytes of its own before end. */
  ghost predicate Located(own: seq<int>, dirOff: seq<int>, d: Entry, end: int) {
    && d.Entry? && d.id < |dirOff| && 0 <= dirOff[d.id] && dirOff[d.id] + EntryBytes(d) <= end <= |own|
    && forall p :: dirOff[d.id] <= p < dirOff[d.id] + EntryBytes(d) ==> own[p] == d.id
  }

  lemma {:induction false} ListedLocated(img: seq<Byte>, own: seq<int>, dirOff: seq<int>, e: Entry, off: int, end: int,
          d: Entry)
    requires Listed(img, own, dirOff, e, off, Null, end) && d in Dirs(e) && end <= |own|
    ensures Located(own, dirOff, d, end)
    decreases e
  {
    ListedEnd(img, own, dirOff, e, off, end);
    if d != e { ListedLocated(img, own, dirOff, e.next, off + EntryBytes(e), end, d); }
  }

  lemma {:induction false} ListedEnd(img: seq<Byte>, own: seq<int>, dirOff: seq<int>, e: Entry, off: int, end: int)
    requires Listed(img, own, dirOff, e, off, Null, end)
    ensures off <= end && (e.Entry? ==> off + EntryBytes(e) <= end)
    decreases e
  {
    if e.Entry? { ListedEnd(img, own, dirOff, e.next, off + EntryBytes(e), end); }
  }

  /** Owners are entries that have been written, and nothing has been written from end on. */
  ghost predicate Owners(own: seq<int>, written: set<nat>, end: int) {
    && (forall p :: 0 <= p < |own| && own[p] != FREE ==> own[p] >= 0 && own[p] in written)
    && (forall p :: end <= p < |own| && 0 <= p ==> own[p] == FREE)
  }

  /** Nothing has changed in front of k. */
  ghost predicate KeptTo(img: seq<Byte>, img': seq<Byte>, own: seq<int>, own': seq<int>, k: int) {
    && |img'| == |img| == |own| == |own'|
    && forall p :: 0 <= p < k && p < |img| ==> img'[p] == img[p] && own'[p] == own[p]
  }

  lemma KeptSelf(img: seq<Byte>, own: seq<int>, k: int)
    requires |img| == |own|
    ensures KeptTo(img, img, own, own, k)
  {}

  lemma KeptOn(img0: seq<Byte>, img1: seq<Byte>, img2: seq<Byte>, own0: seq<int>, own1: seq<int>, own2: seq<int>,
               k: int, k': int)
    requires KeptTo(img0, img1, own0, own1, k) && KeptTo(img1, img2, own1, own2, k') && k <= k'
    ensures KeptTo(img0, img2, own0, own2, k)
  {}

  /** Bytes that nobody owns are kept. */
  lemma KeptFree(img0: seq<Byte>, img1: seq<Byte>, img2: seq<Byte>, own0: seq<int>, own1: seq<int>, k: int)
    requires KeptTo(img0, img1, own0, own1, k) && |img2| == |img1|
    requires forall p :: 0 <= p < |own0| ==> own0[p] == FREE
    requires forall p :: 0 <= p < |img1| && p < |own1| && own1[p] == FREE ==> img2[p] == img1[p]
    ensures KeptTo(img0, img2, own0, own1, k)
  {}

  /** own with n bytes from at on given to id. */
  ghost function Given(own: seq<int>, at: int, n: int, id: nat): (own': seq<int>)
    ensures |own'| == |own|
  {
    seq(|own|, p requires 0 <= p < |own| => if at <= p < at + n then id else own[p])
  }

  lemma GivenKept(img: seq<Byte>, img': seq<Byte>, own: seq<int>, at: int, n: int, id: nat)
    requires |img'| == |img| == |own| && forall p :: 0 <= p < at && p < |img| ==> img'[p] == img[p]
    ensures KeptTo(img, img', own, Given(own, at, n, id), at)
  {}

  lemma EntryWritten(img: seq<Byte>, img': seq<Byte>, own: seq<int>, dirOff: seq<int>, e: Entry, at: int,
                     written: set<nat>)
    requires e.Entry? && 0 <= at && at + EntryBytes(e) <= |img| == |img'| == |own| && e.id < |dirOff|
             && e.id !in written
    requires Owners(own, written, at) && |e.name| <= MAXPATHLEN
    requires img'[at..at + EntryBytes(e)] == EntryImage(e)
    requires forall p :: 0 <= p < |img| && !(at <= p < at + EntryBytes(e)) ==> img'[p] == img[p]
    ensures var own', dirOff' := Given(own, at, EntryBytes(e), e.id), dirOff[e.id := at];
            && EntryAt(img', own', dirOff', e, at) && OffsetAt(img', at) == 0
               && Frame(img, img', own, own', dirOff, dirOff', {})
            && Owners(own', written + {e.id}, at + EntryBytes(e))
  {
    var n := Pad4(|e.name|) / 4;
    ImageParts(e);
    Part(img', at, EntryBytes(e), 0, 8);
    Part(img', at, EntryBytes(e), 8, 12);
    Part(img', at, EntryBytes(e), 12, EntryBytes(e));
    WordStored(img', at + 8, n);
  }

  lemma WholeEntry(img': seq<Byte>, img: seq<Byte>, e: Entry, at: int)
    requires e.Entry? && 0 <= at && at + EntryBytes(e) <= |img'| == |img|
    requires img'[at..at + 8] == Head(e) && img'[at + 8..at + 12] == Le32(Pad4(|e.name|) / 4)
    requires img'[at + INODE_SIZE..at + INODE_SIZE + Pad4(|e.name|)] == Padded(e.name)
    ensures img'[at..at + EntryBytes(e)] == EntryImage(e)
  {
    assert img'[at..at + EntryBytes(e)] == img'[at..at + 8] + img'[at + 8..at + 12] + img'[at + 12..at + EntryBytes(e)];
  }

  lemma OffsetSet(img: seq<Byte>, img': seq<Byte>, own: seq<int>, dirOff: seq<int>, id: nat, w: nat, off: int)
    requires id < |dirOff| && 0 <= dirOff[id] && dirOff[id] + INODE_SIZE <= |img| == |img'| == |own|
             && 0 <= off && off % 4 == 0
    requires forall p :: dirOff[id] <= p < dirOff[id] + INODE_SIZE ==> own[p] == id
    requires forall p :: 0 <= p < |img| && !(dirOff[id] + 8 <= p < dirOff[id] + 12) ==> img'[p] == img[p]
    requires w == Word(img, dirOff[id] + 8) && Word(img', dirOff[id] + 8) == w % 64 + off / 4 * 64
    ensures OffsetAt(img', dirOff[id]) == off && Frame(img, img', own, own, dirOff, dirOff, {id})
  {
    hide Word;
    forall p | 0 <= p < |own| && img'[p] != img[p] ensures InWord(own, dirOff, {id}, p) {}
  }

  lemma ImageParts(e: Entry)
    requires e.Entry?
    ensures var s := EntryImage(e); s[0..8] == Head(e) && s[8..12] == Le32(Pad4(|e.name|) / 4)
                                    && s[12..EntryBytes(e)] == Padded(e.name)
  {}

  lemma Part(img: seq<Byte>, at: int, n: int, lo: int, hi: int)
    requires 0 <= at && 0 <= lo <= hi <= n && at + n <= |img|
    ensures img[at + lo..at + hi] == img[at..at + n][lo..hi]
  {
    var a, b := img[at + lo..at + hi], img[at..at + n][lo..hi];
    assert |a| == |b|;
    forall i | 0 <= i < hi - lo ensures a[i] == b[i] {}
  }

  class RomImage {
    const base: array<Byte>
    const dirOffset: array<int>
    const offset: array<int>
    const same: array<int>
    ghost var own: seq<int>

    ghost predicate Shape()
      reads this
    {
      |own| == base.Length && dirOffset.Length == offset.Length == same.Length && dirOffset != offset
          && dirOffset != same && offset != same
    }

    constructor (size: nat, count: nat)
      ensures Shape() && fresh(base) && fresh(dirOffset) && fresh(offset) && fresh(same) && base.Length == size
              && same.Length == count
      ensures forall p :: 0 <= p < size ==> own[p] == FREE && base[p] == 0
      ensures forall i :: 0 <= i < count ==> same[i] == FREE
    {
      base := new Byte[size](_ => 0);
      dirOffset := new int[count](_ => 0);
      offset := new int[count](_ => 0);
      same := new int[count](_ => FREE);
      own := seq(size, _ => FREE);
    }

    /** The body of the loop that writes the entries of a directory. */
    method WriteEntry(e: Entry, at: int, ghost written: set<nat>)
      requires Shape() && e.Entry? && 0 <= at && at + EntryBytes(e) <= base.Length && e.id < dirOffset.Length
               && e.id !in written
      requires Owners(own, written, at) && |e.name| <= MAXPATHLEN
      modifies this`own, base, dirOffset
      ensures Shape() && EntryAt(base[..], own, dirOffset[..], e, at) && OffsetAt(base[..], at) == 0
      ensures Frame(old(base[..]), base[..], old(own), own, old(dirOffset[..]), dirOffset[..], {})
      ensures Owners(own, written + {e.id}, at + EntryBytes(e))
      ensures KeptTo(old(base[..]), base[..], old(own), own, at)
    {
      hide Head, EntryImage, Padded, Pad4, Given, Owners, Le32, KeptTo;
      ghost var img, dirOff, own0 := base[..], dirOffset[..], own;
      dirOffset[e.id] := at;
      PutBytes(at, Head(e));
      PutBytes(at + INODE_SIZE, e.name);
      var len := Pad(at + INODE_SIZE, e.name);
      PutWord(at + 8, len / 4);
      WholeEntry(base[..], img, e, at);
      GivenKept(img, base[..], own, at, EntryBytes(e), e.id);
      own := Given(own, at, EntryBytes(e), e.id);
      EntryWritten(img, base[..], own0, dirOff, e, at, written);
    }

    /** memcpy. */
    method PutBytes(at: int, s: seq<Byte>)
      requires 0 <= at && at + |s| <= base.Length
      modifies base
      ensures base[at..at + |s|] == s
      ensures forall p :: 0 <= p < base.Length && !(at <= p < at + |s|) ==> base[p] == old(base[p])
    {
      var i := 0;
      while i < |s|
        invariant 0 <= i <= |s|
        invariant forall p :: 0 <= p < base.Length ==> base[p] == if at <= p < at + i then s[p - at] else old(base[p])
      {
        base[at + i] := s[i];
        i := i + 1;
      }
    }

    /** The loop that pads a name to a multiple of four bytes. */
    method Pad(at: int, name: seq<Byte>) returns (len: nat)
      requires 0 <= at && at + Pad4(|name|) <= base.Length && base[at..at + |name|] == name
      modifies base
      ensures len == Pad4(|name|) && base[at..at + len] == Padded(name)
      ensures forall p :: 0 <= p < base.Length && !(at <= p < at + len) ==> base[p] == old(base[p])
    {
      len := |name|;
      while len % 4 != 0
        invariant |name| <= len <= Pad4(|name|)
        invariant base[at..at + len] == Padded(name)[..len]
        invariant forall p :: 0 <= p < base.Length && !(at <= p < at + len) ==> base[p] == old(base[p])
        decreases Pad4(|name|) - len
      {
        ghost var before := base[at..at + len];
        base[at + len] := 0;
        len := len + 1;
        assert base[at..at + len] == before + [0];
      }
    }

    method PutWord(at: int, x: nat)
      requires 0 <= at && at + 4 <= base.Length && x < 0x1_0000_0000
      modifies base
      ensures base[at..at + 4] == Le32(x) && Word(base[..], at) == x
      ensures forall p :: 0 <= p < base.Length && !(at <= p < at + 4) ==> base[p] == old(base[p])
    {
      base[at] := x % 256;
      base[at + 1] := x / 256 % 256;
      base[at + 2] := x / 256 / 256 % 256;
      base[at + 3] := x / 256 / 256 / 256 % 256;
      assert base[..][at..at + 4] == base[at..at + 4] == Le32(x);
      WordStored(base[..], at, x);
    }

    /** set_data_offset: the inode of the entry leads to off from now on. */
    method SetDataOffset(id: nat, off: int) returns (r: Result<()>)
      requires Shape() && id < dirOffset.Length && 0 <= off && 0 <= dirOffset[id]
               && dirOffset[id] + INODE_SIZE <= base.Length
      requires forall p :: dirOffset[id] <= p < dirOffset[id] + INODE_SIZE ==> own[p] == id
      modifies base
      ensures r.Failure? <==> off % 4 != 0 || off >= OFFSET_LIMIT
      ensures r.Failure? ==> r.error == if off % 4 != 0 then IllegalOffset else FilesystemTooBig
      ensures r.Success? ==> OffsetAt(base[..], dirOffset[id]) == off
      ensures r.Success? ==> Frame(old(base[..]), base[..], own, own, dirOffset[..], dirOffset[..], {id})
      ensures forall p :: 0 <= p < base.Length && own[p] == FREE ==> base[p] == old(base[p])
    {
      if off % 4 != 0 { return Failure(IllegalOffset); }
      if off >= OFFSET_LIMIT { return Failure(FilesystemTooBig); }
      hide Le32, Word;
      ghost var img := base[..];
      var p := dirOffset[id];
      var w := Word(base[..], p + 8);
      PutWord(p + 8, w % 64 + off / 4 * 64);
      OffsetSet(img, base[..], own, dirOffset[..], id, w, off);
      return Success(());
    }

    /** The inner loop of write_directory_structure: a directory's entries, one behind the other; those that are
        directories with entries themselves are pushed. The loop stops where it would run past the mapping. */
    method WriteList(first: Entry, offset0: int, stack0: seq<Entry>, ghost written: set<nat>)
      returns (r: Result<(int, seq<Entry>)>)
      requires Shape() && Fine(first) && Separate(first) && ListIds(first) !! written
               && (forall i :: i in Ids(first) ==> i < dirOffset.Length)
      requires Owners(own, written, offset0) && 0 <= offset0
      modifies this`own, base, dirOffset
      ensures r.Failure? <==> offset0 + ListBytes(first) > base.Length && first.Entry?
      ensures r.Failure? ==> r.error == NotEnoughSpace
      ensures r.Success? ==> ListDone(base[..], own, dirOffset[..], first, offset0, r.value.0, written)
                             && r.value.1 == stack0 + Dirs(first)
      ensures r.Success?
              ==> Shape() && Frame(old(base[..]), base[..], old(own), own, old(dirOffset[..]), dirOffset[..], {})
      ensures r.Success? ==> KeptTo(old(base[..]), base[..], old(own), own, offset0)
    {
      hide *;
      var entry, offset, stack := first, offset0, stack0;
      ghost var wr, dirs: seq<Entry> := written, [];
      Shaped();
      FrameRefl(base[..], own, dirOffset[..]);
      KeptSelf(base[..], own, offset0);
      ListedStart(base[..], own, dirOffset[..], first, offset0);
      while entry.Entry?
        invariant |own| == base.Length && Shape() && Fine(entry) && Separate(entry) && ListIds(entry) !! wr
                  && Ids(entry) <= Ids(first)
        invariant Listed(base[..], own, dirOffset[..], first, offset0, entry, offset) && 0 <= offset
        invariant offset + ListBytes(entry) == offset0 + ListBytes(first)
                  && wr + ListIds(entry) == written + ListIds(first)
        invariant stack == stack0 + dirs && dirs + Dirs(entry) == Dirs(first) && Owners(own, wr, offset)
        invariant Frame(old(base[..]), base[..], old(own), own, old(dirOffset[..]), dirOffset[..], {})
        invariant entry == first || (first.Entry? && offset <= base.Length)
        invariant KeptTo(old(base[..]), base[..], old(own), own, offset0) && offset0 <= offset
        decreases entry
      {
        ghost var img, own0, d0 := base[..], own, dirOffset[..];
        ListStep(entry, wr);
        if offset + EntryBytes(entry) > base.Length { return Failure(NotEnoughSpace); }
        WriteEntry(entry, offset, wr);
        FrameTrans(old(base[..]), img, base[..], old(own), own0, own, old(dirOffset[..]), d0, dirOffset[..], {});
        ListedKept(img, base[..], own0, own, d0, dirOffset[..], first, offset0, entry, offset);
        ListedMore(base[..], own, dirOffset[..], first, offset0, entry, offset);
        KeptOn(old(base[..]), img, base[..], old(own), own0, own, offset0, offset);
        EntryPositive(entry);
        offset := offset + EntryBytes(entry);
        if entry.child.Entry? {
          stack := stack + [entry];
          dirs := dirs + [entry];
        }
        wr := wr + {entry.id};
        entry := entry.next;
        Shaped();
      }
      ListEnd();
      assert wr + {} == wr;
      ListFinished(base[..], own, dirOffset[..], first, offset0, offset, written);
      return Success((offset, stack));
    }

    /** write_directory_structure: the root's entries from offset0 on, then, directory by directory, each one's
        entries before those of the directories inside it. */
    method WriteDirectoryStructure(root: Entry, offset0: int) returns (r: Result<int>)
      requires Shape() && Fine(root) && Separate(root) && (forall i :: i in Ids(root) ==> i < dirOffset.Length)
      requires (forall p :: 0 <= p < |own| ==> own[p] == FREE) && 0 <= offset0 <= base.Length && offset0 % 4 == 0
      modifies this`own, base, dirOffset
      ensures r.Failure? ==> if r.error == NotEnoughSpace then offset0 + TreeBytes(root) > base.Length
                             else r.error == FilesystemTooBig && offset0 + TreeBytes(root) >= OFFSET_LIMIT
                                  && base.Length >= OFFSET_LIMIT
      ensures r.Success? ==> Shape() && r.value == offset0 + TreeBytes(root) <= base.Length
      ensures r.Success? ==> Stored(base[..], own, dirOffset[..], root, offset0, {}) && Owners(own, Ids(root), r.value)
      ensures r.Success?
              ==> Opened(base[..], own, dirOffset[..], PreDirs(root), |PreDirs(root)|, offset0 + ListBytes(root),
                    r.value)
      ensures r.Success? ==> KeptTo(old(base[..]), base[..], old(own), own, offset0)
    {
      hide *;
      Shaped();
      Started(own, root, offset0);
      ghost var written: set<nat> := {};
      var first := WriteList(root, offset0, [], written);
      if first.Failure? { return Failure(first.error); }
      var offset := first.value.0;
      var stack := ReverseFrom(first.value.1, 0);
      Shaped();
      ghost var open := OpenIds(root);
      ghost var n := 0;
      FirstList(base[..], own, dirOffset[..], root, offset0, offset, stack, written);
      written := written + ListIds(root);
      while stack != []
        invariant Shape() && |own| == base.Length && offset <= base.Length
        invariant Walking(base[..], own, dirOffset[..], root, offset0, offset, stack, open, written, n)
        invariant KeptTo(old(base[..]), base[..], old(own), own, offset0)
        decreases |PreDirs(root)| - n
      {
        ghost var img, own0, d0 := base[..], own, dirOffset[..];
        ghost var stack0, start := stack, offset;
        WalkedOn(img, own0, d0, root, offset0, offset, stack, open, written, n);
        NextDir(img, own0, d0, root, offset0, offset, stack, open, written, n);
        var d := stack[|stack| - 1];
        stack := stack[..|stack| - 1];
        var dirStart := |stack|;
        var done := SetDataOffset(d.id, offset);
        if done.Failure? { return Failure(done.error); }
        ghost var img1 := base[..];
        KeptFree(old(base[..]), img, img1, old(own), own0, offset0);
        var list := WriteList(d.child, offset, stack, written);
        if list.Failure? { return Failure(list.error); }
        KeptOn(old(base[..]), img1, base[..], old(own), own0, own, offset0, offset);
        offset := list.value.0;
        stack := ReverseFrom(list.value.1, dirStart);
        ListWalked(img, img1, base[..], own0, own, d0, dirOffset[..], root, offset0, start, offset,
            stack0, stack, open, written, n);
        open := (open - {d.id}) + OpenIds(d.child);
        written := written + ListIds(d.child);
        n := n + 1;
        Shaped();
      }
      Walked(base[..], own, dirOffset[..], root, offset0, offset, open, written, n);
      return Success(offset);
    }

    lemma Shaped()
      requires Shape()
      ensures |own| == base.Length && dirOffset.Length == offset.Length == same.Length
      ensures dirOffset != offset && dirOffset != same && offset != same
    {}
  }

  /** The directories that have been written so far, each at its place and with its inode leading there. */
  ghost predicate Opened(img: seq<Byte>, own: seq<int>, dirOff: seq<int>, dirs: seq<Entry>, n: int, start: int,
                         end: int) {
    && 0 <= n <= |dirs| && |img| == |own| && (forall i :: 0 <= i < |dirs| ==> dirs[i].Entry?)
    && forall k :: 0 <= k < n ==> OpenedAt(img, own, dirOff, dirs, k, start, end)
  }

  ghost predicate OpenedAt(img: seq<Byte>, own: seq<int>, dirOff: seq<int>, dirs: seq<Entry>, k: int, start: int,
                           end: int)
    requires 0 <= k < |dirs| && |img| == |own| && forall i :: 0 <= i < |dirs| ==> dirs[i].Entry?
  {
    Located(own, dirOff, dirs[k], end) && OffsetAt(img, dirOff[dirs[k].id]) == start + DirBytes(dirs[..k])
  }

  /** Directory d is on the stack: its entry has been written, its contents have not. */
  ghost predicate Pending(own: seq<int>, dirOff: seq<int>, root: Entry, end: int, written: set<nat>, d: Entry) {
    Located(own, dirOff, d, end) && d.child.Entry? && d in Nodes(root) && d.id in written && Ids(d.child) !! written
  }

  ghost predicate AllPending(own: seq<int>, dirOff: seq<int>, root: Entry, end: int, written: set<nat>,
                             stack: seq<Entry>) {
    && (forall i :: 0 <= i < |stack| ==> Pending(own, dirOff, root, end, written, stack[i]))
    && (forall i, j :: 0 <= i < j < |stack| ==> Apart(stack[i], stack[j]))
  }

  ghost predicate Apart(d: Entry, e: Entry) {
    d.Entry? && e.Entry? && d.id != e.id && Ids(d.child) !! Ids(e.child)
  }

  /** Open directories are on the stack. */
  ghost predicate OnStack(open: set<nat>, stack: seq<Entry>) {
    forall i :: i in open ==> exists k :: 0 <= k < |stack| && stack[k].Entry? && stack[k].id == i
  }

  /** Between two directories: done of them have been written, up to offset. */
  ghost predicate Walking(img: seq<Byte>, own: seq<int>, dirOff: seq<int>, root: Entry, offset0: int, offset: int,
                          stack: seq<Entry>, open: set<nat>, written: set<nat>, done: int)
  {
    && Fine(root) && Separate(root) && (forall i :: i in Ids(root) ==> i < |dirOff|) && |img| == |own|
    && Stored(img, own, dirOff, root, offset0, open) && Owners(own, written, offset) && written <= Ids(root)
    && AllPending(own, dirOff, root, offset, written, stack) && OnStack(open, stack)
    && 0 <= done <= |PreDirs(root)| && PreDirs(root)[..done] + Below(stack) == PreDirs(root)
    && 0 <= offset0 <= offset && offset0 % 4 == 0
    && Opened(img, own, dirOff, PreDirs(root), done, offset0 + ListBytes(root), offset)
    && offset == offset0 + ListBytes(root) + DirBytes(PreDirs(root)[..done])
  }

  lemma Started(own: seq<int>, root: Entry, offset0: int)
    requires Fine(root) && forall p :: 0 <= p < |own| ==> own[p] == FREE
    ensures Owners(own, {}, offset0) && ListIds(root) !! {} && TreeBytes(root) >= ListBytes(root)
  {}

  lemma {:induction false} DirsAre(e: Entry)
    requires Separate(e)
    ensures forall i :: 0 <= i < |Dirs(e)| ==> Dirs(e)[i].id in ListIds(e)
                                               && Ids(Dirs(e)[i].child) <= Ids(e) - ListIds(e)
    ensures forall i, j :: 0 <= i < j < |Dirs(e)| ==> Apart(Dirs(e)[i], Dirs(e)[j])
  {
    if e.Entry? {
      DirsAre(e.next);
      ListInIds(e.next);
    }
  }

  lemma ReversedApart(dirs: seq<Entry>)
    requires forall i, j :: 0 <= i < j < |dirs| ==> Apart(dirs[i], dirs[j])
    ensures forall i, j :: 0 <= i < j < |dirs| ==> Apart(Reversed(dirs)[i], Reversed(dirs)[j])
  {
    forall i, j | 0 <= i < j < |dirs| ensures Apart(Reversed(dirs)[i], Reversed(dirs)[j]) {
      assert Apart(dirs[|dirs| - 1 - j], dirs[|dirs| - 1 - i]);
    }
  }

  lemma {:induction false} OpenDirs(e: Entry, i: nat)
    requires i in OpenIds(e)
    ensures exists k :: 0 <= k < |Dirs(e)| && Dirs(e)[k].id == i
  {
    if e.child.Entry? && e.id == i {
      assert Dirs(e)[0].id == i;
    } else {
      OpenDirs(e.next, i);
      var k :| 0 <= k < |Dirs(e.next)| && Dirs(e.next)[k].id == i;
      assert Dirs(e)[if e.child.Entry? then k + 1 else k].id == i;
    }
  }

  /** The directories of a list that has just been written can be put on the stack. */
  lemma DirsPending(img: seq<Byte>, own: seq<int>, dirOff: seq<int>, root: Entry, e: Entry, off: int, end: int,
                    written: set<nat>)
    requires Listed(img, own, dirOff, e, off, Null, end) && end <= |own| && Separate(e)
    requires (forall n :: n in Nodes(e) ==> n in Nodes(root)) && Ids(e) !! written
    ensures AllPending(own, dirOff, root, end, written + ListIds(e), Reversed(Dirs(e)))
    ensures OnStack(OpenIds(e), Reversed(Dirs(e)))
  {
    hide Listed, Located, Apart, Nodes, Reversed;
    var dirs, wr := Dirs(e), written + ListIds(e);
    DirsAre(e);
    ListInIds(e);
    ReversedApart(dirs);
    forall i | 0 <= i < |dirs| ensures Pending(own, dirOff, root, end, wr, Reversed(dirs)[i]) {
      var d := dirs[|dirs| - 1 - i];
      DirsInNodes(e, d);
      ListedLocated(img, own, dirOff, e, off, end, d);
      assert d in Nodes(root);
      assert Ids(d.child) <= Ids(e) - ListIds(e);
    }
    forall i | i in OpenIds(e)
      ensures exists k :: 0 <= k < |Reversed(dirs)| && Reversed(dirs)[k].Entry? && Reversed(dirs)[k].id == i
    {
      OpenDirs(e, i);
      var k :| 0 <= k < |dirs| && dirs[k].id == i;
      assert Reversed(dirs)[|dirs| - 1 - k].id == i;
    }
  }

  /** A list of entries has been written, from offset0 to offset. */
  ghost predicate ListDone(img: seq<Byte>, own: seq<int>, dirOff: seq<int>, e: Entry, offset0: int, offset: int,
                           written: set<nat>) {
    && Listed(img, own, dirOff, e, offset0, Null, offset) && offset == offset0 + ListBytes(e)
       && (offset0 <= |img| ==> offset <= |img|)
    && Owners(own, written + ListIds(e), offset)
  }

  lemma ListFinished(img: seq<Byte>, own: seq<int>, dirOff: seq<int>, e: Entry, offset0: int, offset: int,
                     written: set<nat>)
    requires Listed(img, own, dirOff, e, offset0, Null, offset) && offset == offset0 + ListBytes(e)
             && (offset0 <= |img| ==> offset <= |img|)
    requires Owners(own, written + ListIds(e), offset)
    ensures ListDone(img, own, dirOff, e, offset0, offset, written)
  {}

  lemma FirstList(img: seq<Byte>, own: seq<int>, dirOff: seq<int>, root: Entry, offset0: int, offset: int,
                  stack: seq<Entry>, written: set<nat>)
    requires Fine(root) && Separate(root) && (forall i :: i in Ids(root) ==> i < |dirOff|) && |img| == |own|
    requires ListDone(img, own, dirOff, root, offset0, offset, written) && written == {} && 0 <= offset0 <= |img|
             && offset0 % 4 == 0
    requires stack == ([] + Dirs(root))[..0] + Reversed(([] + Dirs(root))[0..])
    ensures Walking(img, own, dirOff, root, offset0, offset, stack, OpenIds(root), written + ListIds(root), 0)
            && offset <= |img|
  {
    hide Stored, Listed, Owners, Fine, Separate, Nodes, Located, Below, Dirs, PreDirs, Reversed,
         AllPending, OnStack, ListBytes;
    assert ([] + Dirs(root))[0..] == Dirs(root) && stack == Reversed(Dirs(root)) == [] + Reversed(Dirs(root));
    ListedEnd(img, own, dirOff, root, offset0, offset);
    ListedStored(img, own, dirOff, root, offset0, offset, OpenIds(root));
    DirsPending(img, own, dirOff, root, root, offset0, offset, {});
    BelowDirs([], root);
    ListInIds(root);
    PreDirsAre(root);
    assert PreDirs(root)[..0] == [] && DirBytes([]) == 0;
    assert Below([]) == [] by { BelowNone(); }
    assert {} + ListIds(root) == ListIds(root);
  }

  lemma BelowNone()
    ensures Below([]) == []
  {}

  /** The directory on top of the stack is the next one. */
  lemma NextIs(root: Entry, stack: seq<Entry>, done: int)
    requires stack != [] && (forall i :: 0 <= i < |stack| ==> stack[i].Entry?) && 0 <= done <= |PreDirs(root)|
    requires PreDirs(root)[..done] + Below(stack) == PreDirs(root)
    ensures done < |PreDirs(root)| && PreDirs(root)[done] == stack[|stack| - 1]
    ensures DirBytes(PreDirs(root)[..done]) + ListBytes(stack[|stack| - 1].child) <= DirBytes(PreDirs(root))
  {
    var d := stack[|stack| - 1];
    BelowTop(stack);
    var before, rest := PreDirs(root)[..done], PreDirs(d.child) + Below(stack[..|stack| - 1]);
    assert PreDirs(root) == before + ([d] + rest);
    DirBytesSum(before, [d] + rest);
    assert ([d] + rest)[1..] == rest;
  }

  lemma PendingFine(own: seq<int>, dirOff: seq<int>, root: Entry, end: int, written: set<nat>, d: Entry)
    requires Pending(own, dirOff, root, end, written, d) && Fine(root) && Separate(root)
    ensures d.Entry? && d.id < |dirOff| && 0 <= dirOff[d.id] && dirOff[d.id] + INODE_SIZE <= end <= |own|
    ensures forall p :: dirOff[d.id] <= p < dirOff[d.id] + INODE_SIZE ==> own[p] == d.id
    ensures Fine(d.child) && Separate(d.child) && ListIds(d.child) !! written && Ids(d.child) <= Ids(root)
            && d.child.Entry?
  {
    FineNode(root, d);
    SeparateNode(root, d);
    ListInIds(d.child);
  }

  /** There is room for the contents of the directory on top of the stack. */
  lemma WalkedOn(img: seq<Byte>, own: seq<int>, dirOff: seq<int>, root: Entry, offset0: int, offset: int,
                 stack: seq<Entry>, open: set<nat>, written: set<nat>, done: int)
    requires Walking(img, own, dirOff, root, offset0, offset, stack, open, written, done)
    ensures offset0 <= offset
  {}

  lemma NextDir(img: seq<Byte>, own: seq<int>, dirOff: seq<int>, root: Entry, offset0: int, offset: int,
                stack: seq<Entry>, open: set<nat>, written: set<nat>, done: int)
    requires Walking(img, own, dirOff, root, offset0, offset, stack, open, written, done) && stack != []
    ensures var d := stack[|stack| - 1];
            && Pending(own, dirOff, root, offset, written, d) && d.Entry? && d.id < |dirOff| && 0 <= dirOff[d.id]
            && dirOff[d.id] + INODE_SIZE <= |img|
               && (forall p :: dirOff[d.id] <= p < dirOff[d.id] + INODE_SIZE ==> own[p] == d.id)
            && Fine(d.child) && Separate(d.child) && ListIds(d.child) !! written
               && (forall i :: i in Ids(d.child) ==> i < |dirOff|)
            && offset + ListBytes(d.child) <= offset0 + TreeBytes(root) && done < |PreDirs(root)|
               && PreDirs(root)[done] == d && d.child.Entry?
    ensures Owners(own, written, offset) && 0 <= offset && offset % 4 == 0
  {
    hide Stored, Owners, Opened, Pending, Fine, Separate, Apart, OnStack, PreDirs, Below, DirBytes,
         ListBytes, Ids, ListIds;
    PendingEntries(own, dirOff, root, offset, written, stack);
    NextIs(root, stack, done);
    PendingFine(own, dirOff, root, offset, written, stack[|stack| - 1]);
  }

  /** What is in place below the entries stays so in a frame. */
  lemma FrameWider(img: seq<Byte>, img': seq<Byte>, own: seq<int>, own': seq<int>, dirOff: seq<int>, dirOff': seq<int>,
                   d: Entry, end: int)
    requires Frame(img, img', own, own', dirOff, dirOff', {}) && Located(own, dirOff, d, end)
    ensures Frame(img, img', own, own', dirOff, dirOff', {d.id})
    ensures dirOff'[d.id] == dirOff[d.id] && OffsetAt(img', dirOff[d.id]) == OffsetAt(img, dirOff[d.id])
  {
    assert own[dirOff[d.id]] == d.id;
    forall p | dirOff[d.id] + 8 <= p < dirOff[d.id] + 12 ensures img'[p] == img[p] { assert own[p] == d.id; }
    WordAgrees(img, img', dirOff[d.id] + 8);
  }

  lemma LocatedKept(img: seq<Byte>, img': seq<Byte>, own: seq<int>, own': seq<int>, dirOff: seq<int>, dirOff': seq<int>,
                    w: set<nat>, d: Entry, end: int, end': int)
    requires Frame(img, img', own, own', dirOff, dirOff', w) && Located(own, dirOff, d, end) && end <= end' <= |own|
    ensures Located(own', dirOff', d, end') && dirOff'[d.id] == dirOff[d.id]
    ensures d.id !in w ==> OffsetAt(img', dirOff[d.id]) == OffsetAt(img, dirOff[d.id])
  {
    assert own[dirOff[d.id]] == d.id;
    forall p | dirOff[d.id] <= p < dirOff[d.id] + EntryBytes(d)
      ensures own'[p] == d.id && (d.id !in w ==> img'[p] == img[p])
    {
      assert own[p] == d.id;
    }
    if d.id !in w { WordAgrees(img, img', dirOff[d.id] + 8); }
  }

  lemma PendingKept(img: seq<Byte>, img': seq<Byte>, own: seq<int>, own': seq<int>, dirOff: seq<int>, dirOff': seq<int>,
                    w: set<nat>, root: Entry, end: int, end': int, written: set<nat>, more: set<nat>, stack: seq<Entry>)
    requires Frame(img, img', own, own', dirOff, dirOff', w) && AllPending(own, dirOff, root, end, written, stack)
             && end <= end' <= |own|
    requires forall i :: 0 <= i < |stack| && stack[i].Entry? ==> Ids(stack[i].child) !! more
    ensures AllPending(own', dirOff', root, end', written + more, stack)
  {
    forall i | 0 <= i < |stack| ensures Pending(own', dirOff', root, end', written + more, stack[i]) {
      assert Pending(own, dirOff, root, end, written, stack[i]);
      LocatedKept(img, img', own, own', dirOff, dirOff', w, stack[i], end, end');
    }
  }

  /** Directories on the stack and those of a list inside one that has just been taken off. */
  lemma PendingBoth(own: seq<int>, dirOff: seq<int>, root: Entry, end: int, written: set<nat>, rest: seq<Entry>,
                    dirs: seq<Entry>, old0: set<nat>, inner: set<nat>)
    requires AllPending(own, dirOff, root, end, written, rest) && AllPending(own, dirOff, root, end, written, dirs)
    requires forall i :: 0 <= i < |rest| && rest[i].Entry? ==> rest[i].id in old0 && Ids(rest[i].child) !! inner
    requires forall i :: 0 <= i < |dirs| && dirs[i].Entry? ==> dirs[i].id in inner && Ids(dirs[i].child) <= inner
    requires old0 !! inner
    ensures AllPending(own, dirOff, root, end, written, rest + dirs)
  {
    var stack := rest + dirs;
    forall i | 0 <= i < |stack| ensures Pending(own, dirOff, root, end, written, stack[i]) {
      if i < |rest| {
        assert Pending(own, dirOff, root, end, written, rest[i]);
      } else {
        assert Pending(own, dirOff, root, end, written, dirs[i - |rest|]);
      }
    }
    forall i, j | 0 <= i < j < |stack| ensures Apart(stack[i], stack[j]) {
      if j < |rest| {
        assert Apart(rest[i], rest[j]);
      } else if i >= |rest| {
        assert Apart(dirs[i - |rest|], dirs[j - |rest|]);
      } else {
        assert Pending(own, dirOff, root, end, written, rest[i])
            && Pending(own, dirOff, root, end, written, dirs[j - |rest|]);
      }
    }
  }

  /** The directories of an entry itself, then those behind it. */
  ghost function Here(e: Entry): seq<Entry>
    requires e.Entry?
  {
    if e.child.Entry? then [e] + PreDirs(e.child) else []
  }

  lemma {:induction false} PreDirsApart(e: Entry, i: int, j: int)
    requires Separate(e) && 0 <= i < j < |PreDirs(e)|
    ensures PreDirs(e)[i].Entry? && PreDirs(e)[j].Entry? && PreDirs(e)[i].id != PreDirs(e)[j].id
  {
    hide PreDirs, Nodes, Here, Separate, Ids;
    HereFirst(e);
    SeparateParts(e);
    var h := |Here(e)|;
    if i >= h {
      PreDirsApart(e.next, i - h, j - h);
    } else if j >= h {
      HereIds(e, i);
      NextIds(e, j - h);
    } else {
      HereInner(e, j);
      InnerIds(e, j - 1);
      if i > 0 {
        HereInner(e, i);
        PreDirsApart(e.child, i - 1, j - 1);
      }
    }
  }

  lemma HereFirst(e: Entry)
    requires |PreDirs(e)| > 0
    ensures e.Entry? && |PreDirs(e)| == |Here(e)| + |PreDirs(e.next)|
            && (Here(e) != [] ==> Here(e)[0] == e && PreDirs(e)[0] == e)
    ensures forall k :: 0 <= k < |Here(e)| ==> PreDirs(e)[k] == Here(e)[k]
    ensures forall k :: |Here(e)| <= k < |PreDirs(e)| ==> PreDirs(e)[k] == PreDirs(e.next)[k - |Here(e)|]
  {
    assert PreDirs(e) == Here(e) + PreDirs(e.next);
  }

  lemma HereInner(e: Entry, i: int)
    requires e.Entry? && 0 < i < |Here(e)|
    ensures i - 1 < |PreDirs(e.child)| && Here(e)[i] == PreDirs(e.child)[i - 1]
  {}

  lemma SeparateParts(e: Entry)
    requires Separate(e) && e.Entry?
    ensures Separate(e.child) && Separate(e.next) && e.id !in Ids(e.child) && {e.id} + Ids(e.child) !! Ids(e.next)
  {}

  lemma HereIds(e: Entry, i: int)
    requires e.Entry? && 0 <= i < |Here(e)|
    ensures Here(e)[i].Entry? && Here(e)[i].id in {e.id} + Ids(e.child)
  {
    PreDirsAre(e.child);
    if i > 0 { NodeId(e.child, PreDirs(e.child)[i - 1]); }
  }

  lemma NextIds(e: Entry, j: int)
    requires e.Entry? && 0 <= j < |PreDirs(e.next)|
    ensures PreDirs(e.next)[j].Entry? && PreDirs(e.next)[j].id in Ids(e.next)
  {
    PreDirsAre(e.next);
    NodeId(e.next, PreDirs(e.next)[j]);
  }

  lemma InnerIds(e: Entry, j: int)
    requires e.Entry? && 0 <= j < |PreDirs(e.child)|
    ensures PreDirs(e.child)[j].Entry? && PreDirs(e.child)[j].id in Ids(e.child)
  {
    PreDirsAre(e.child);
    NodeId(e.child, PreDirs(e.child)[j]);
  }

  lemma OpenedMore(img: seq<Byte>, img': seq<Byte>, own: seq<int>, own': seq<int>, dirOff: seq<int>, dirOff': seq<int>,
                   root: Entry, n: int, start: int, end: int, end': int)
    requires Separate(root) && Opened(img, own, dirOff, PreDirs(root), n, start, end) && n < |PreDirs(root)|
             && end <= end' <= |own|
    requires PreDirs(root)[n].Entry? && Frame(img, img', own, own', dirOff, dirOff', {PreDirs(root)[n].id})
             && Located(own, dirOff, PreDirs(root)[n], end)
    requires OffsetAt(img', dirOff[PreDirs(root)[n].id]) == start + DirBytes(PreDirs(root)[..n])
    ensures Opened(img', own', dirOff', PreDirs(root), n + 1, start, end')
  {
    var dirs := PreDirs(root);
    forall k | 0 <= k < n + 1 ensures OpenedAt(img', own', dirOff', dirs, k, start, end') {
      if k < n {
        assert OpenedAt(img, own, dirOff, dirs, k, start, end);
        PreDirsApart(root, k, n);
      }
      LocatedKept(img, img', own, own', dirOff, dirOff', {dirs[n].id}, dirs[k], end, end');
    }
  }

  lemma ListWalkedTree(img: seq<Byte>, img2: seq<Byte>, own: seq<int>, own2: seq<int>, dirOff: seq<int>,
                       dirOff2: seq<int>, root: Entry, offset0: int, start: int, end: int, d: Entry, open: set<nat>)
    requires Separate(root) && d in Nodes(root) && d.Entry? && d.child.Entry? && d.id < |dirOff|
    requires Stored(img, own, dirOff, root, offset0, open) && Frame(img, img2, own, own2, dirOff, dirOff2, {d.id})
    requires Listed(img2, own2, dirOff2, d.child, start, Null, end)
    requires 0 <= dirOff[d.id] && dirOff[d.id] + INODE_SIZE <= |img2| && OffsetAt(img2, dirOff[d.id]) == start
    ensures Stored(img2, own2, dirOff2, root, offset0, (open - {d.id}) + OpenIds(d.child))
  {
    hide Stored, Frame, Listed, EntryAt, Word;
    ListedStored(img2, own2, dirOff2, d.child, start, end, OpenIds(d.child));
    forall n | n in Nodes(root) && n.Entry? && n.id == d.id ensures n == d { SameNode(root, n, d); }
    Closed(img, img2, own, own2, dirOff, dirOff2, root, offset0, d, start, open, OpenIds(d.child));
  }

  lemma ListWalkedStack(img: seq<Byte>, img2: seq<Byte>, own: seq<int>, own2: seq<int>, dirOff: seq<int>,
                        dirOff2: seq<int>, root: Entry, start: int, end: int, stack: seq<Entry>, open: set<nat>,
                        written: set<nat>)
    requires Separate(root) && stack != [] && AllPending(own, dirOff, root, start, written, stack)
             && OnStack(open, stack)
    requires stack[|stack| - 1].Entry? && written <= Ids(root) && start <= end <= |own| == |own2|
    requires Frame(img, img2, own, own2, dirOff, dirOff2, {stack[|stack| - 1].id})
    requires Listed(img2, own2, dirOff2, stack[|stack| - 1].child, start, Null, end)
    ensures var d, rest := stack[|stack| - 1], stack[..|stack| - 1];
            && AllPending(own2, dirOff2, root, end, written + ListIds(d.child), rest + Reversed(Dirs(d.child)))
            && OnStack((open - {d.id}) + OpenIds(d.child), rest + Reversed(Dirs(d.child)))
            && written + ListIds(d.child) <= Ids(root)
  {
    hide Frame, Listed, Located, Nodes, Separate, OnStack, Reversed, Dirs;
    var d, rest := stack[|stack| - 1], stack[..|stack| - 1];
    var dirs := Reversed(Dirs(d.child));
    assert Pending(own, dirOff, root, start, written, d);
    SeparateNode(root, d);
    ListInIds(d.child);
    forall i | 0 <= i < |rest| && rest[i].Entry?
      ensures Ids(rest[i].child) !! ListIds(d.child) && rest[i].id in written && Ids(rest[i].child) !! Ids(d.child)
    {
      assert Apart(stack[i], d) && Pending(own, dirOff, root, start, written, stack[i]);
    }
    assert AllPending(own, dirOff, root, start, written, rest) by {
      forall i | 0 <= i < |rest| ensures Pending(own, dirOff, root, start, written, rest[i]) {
        assert rest[i] == stack[i];
      }
      forall i, j | 0 <= i < j < |rest| ensures Apart(rest[i], rest[j]) { assert Apart(stack[i], stack[j]); }
    }
    PendingKept(img, img2, own, own2, dirOff, dirOff2, {d.id}, root, start, end, written, ListIds(d.child), rest);
    forall n | n in Nodes(d.child) ensures n in Nodes(root) {
      ChildNodes(d, n);
      NodesBelow(root, d, n);
    }
    DirsPending(img2, own2, dirOff2, root, d.child, start, end, written);
    DirsAre(d.child);
    forall i | 0 <= i < |dirs| && dirs[i].Entry?
      ensures dirs[i].id in Ids(d.child) && Ids(dirs[i].child) <= Ids(d.child)
    {
      assert dirs[i] == Dirs(d.child)[|dirs| - 1 - i];
    }
    PendingBoth(own2, dirOff2, root, end, written + ListIds(d.child), rest, dirs, written, Ids(d.child));
    StackOpen(open, stack, OpenIds(d.child), dirs);
  }

  lemma ChildNodes(d: Entry, n: Entry)
    requires d.Entry? && n in Nodes(d.child)
    ensures n in Nodes(d)
  {}

  lemma StackOpen(open: set<nat>, stack: seq<Entry>, inner: set<nat>, dirs: seq<Entry>)
    requires stack != [] && stack[|stack| - 1].Entry? && OnStack(open, stack) && OnStack(inner, dirs)
    ensures OnStack((open - {stack[|stack| - 1].id}) + inner, stack[..|stack| - 1] + dirs)
  {
    var d, rest := stack[|stack| - 1], stack[..|stack| - 1];
    forall i | i in (open - {d.id}) + inner ensures exists k :: 0 <= k < |rest + dirs| && (rest + dirs)[k].Entry?
                                                      && (rest + dirs)[k].id == i {
      if i in inner {
        var k :| 0 <= k < |dirs| && dirs[k].Entry? && dirs[k].id == i;
        assert (rest + dirs)[|rest| + k].id == i;
      } else {
        var k :| 0 <= k < |stack| && stack[k].Entry? && stack[k].id == i;
        assert (rest + dirs)[k].id == i;
      }
    }
  }

  lemma BelowNow(root: Entry, stack: seq<Entry>, done: int)
    requires stack != [] && (forall i :: 0 <= i < |stack| ==> stack[i].Entry?) && 0 <= done < |PreDirs(root)|
    requires PreDirs(root)[..done] + Below(stack) == PreDirs(root)
    ensures var d, rest := stack[|stack| - 1], stack[..|stack| - 1];
            && (forall i :: 0 <= i < |rest + Reversed(Dirs(d.child))| ==> (rest + Reversed(Dirs(d.child)))[i].Entry?)
            && PreDirs(root)[..done + 1] + Below(rest + Reversed(Dirs(d.child))) == PreDirs(root)
            && DirBytes(PreDirs(root)[..done + 1]) == DirBytes(PreDirs(root)[..done]) + ListBytes(d.child)
  {
    hide Below, PreDirs, Reversed, Dirs, DirBytes;
    var d, rest := stack[|stack| - 1], stack[..|stack| - 1];
    BelowTop(stack);
    BelowDirs(rest, d.child);
    OneDone(PreDirs(root), done, d, PreDirs(d.child) + Below(rest));
    DirBytesSum(PreDirs(root)[..done], [d]);
    OneDir(d);
  }

  lemma OneDone(all: seq<Entry>, done: int, d: Entry, more: seq<Entry>)
    requires 0 <= done < |all| && all[..done] + ([d] + more) == all
    ensures all[..done + 1] == all[..done] + [d] && all[..done + 1] + more == all
  {
    assert all[done] == d;
  }

  lemma OneDir(d: Entry)
    requires d.Entry?
    ensures DirBytes([d]) == ListBytes(d.child)
  {
    assert [d][1..] == [];
  }

  /** The contents of the directory on top of the stack have been written. */
  lemma ListWalked(img: seq<Byte>, img1: seq<Byte>, img2: seq<Byte>, own: seq<int>, own2: seq<int>, dirOff: seq<int>,
                   dirOff2: seq<int>, root: Entry, offset0: int, start: int, end: int, stack: seq<Entry>,
                   stack2: seq<Entry>, open: set<nat>, written: set<nat>, done: int)
    requires Walking(img, own, dirOff, root, offset0, start, stack, open, written, done) && stack != []
    requires var d, rest := stack[|stack| - 1], stack[..|stack| - 1];
             && d.Entry? && Frame(img, img1, own, own, dirOff, dirOff, {d.id}) && d.id < |dirOff|
                && 0 <= dirOff[d.id] && dirOff[d.id] + INODE_SIZE <= |img1|
             && OffsetAt(img1, dirOff[d.id]) == start && Frame(img1, img2, own, own2, dirOff, dirOff2, {})
             && ListDone(img2, own2, dirOff2, d.child, start, end, written) && start <= |img2|
             && stack2 == (rest + Dirs(d.child))[..|rest|] + Reversed((rest + Dirs(d.child))[|rest|..])
    ensures var d := stack[|stack| - 1];
            && Walking(img2, own2, dirOff2, root, offset0, end, stack2, (open - {d.id}) + OpenIds(d.child),
               written + ListIds(d.child), done + 1)
            && end <= |img2|
  {
    hide Stored, Frame, Owners, Listed, Opened, Located, EntryAt, DirBytes, TreeBytes, Below, PreDirs,
         Dirs, Word, AllPending, OnStack;
    var d, rest := stack[|stack| - 1], stack[..|stack| - 1];
    NextDir(img, own, dirOff, root, offset0, start, stack, open, written, done);
    assert stack2 == rest + Reversed(Dirs(d.child));
    FrameWider(img1, img2, own, own2, dirOff, dirOff2, d, start);
    FrameTrans(img, img1, img2, own, own, own2, dirOff, dirOff, dirOff2, {d.id});
    ListWalkedTree(img, img2, own, own2, dirOff, dirOff2, root, offset0, start, end, d, open);
    ListWalkedStack(img, img2, own, own2, dirOff, dirOff2, root, start, end, stack, open, written);
    PendingEntries(own, dirOff, root, start, written, stack);
    BelowNow(root, stack, done);
    OpenedMore(img, img2, own, own2, dirOff, dirOff2, root, done, offset0 + ListBytes(root), start, end);
  }

  lemma PendingEntries(own: seq<int>, dirOff: seq<int>, root: Entry, end: int, written: set<nat>, stack: seq<Entry>)
    requires AllPending(own, dirOff, root, end, written, stack)
    ensures forall i :: 0 <= i < |stack| ==> stack[i].Entry?
  {
    forall i | 0 <= i < |stack| ensures stack[i].Entry? { assert Pending(own, dirOff, root, end, written, stack[i]); }
  }

  lemma NothingOpen(open: set<nat>)
    requires OnStack(open, [])
    ensures open == {}
  {
    forall i | i in open ensures false {}
  }

  /** Nothing is left on the stack. */
  lemma Walked(img: seq<Byte>, own: seq<int>, dirOff: seq<int>, root: Entry, offset0: int, offset: int, open: set<nat>,
               written: set<nat>, done: int)
    requires Walking(img, own, dirOff, root, offset0, offset, [], open, written, done)
    ensures Stored(img, own, dirOff, root, offset0, {}) && offset == offset0 + TreeBytes(root)
            && Owners(own, Ids(root), offset)
    ensures Opened(img, own, dirOff, PreDirs(root), |PreDirs(root)|, offset0 + ListBytes(root), offset)
  {
    NothingOpen(open);
    assert PreDirs(root)[..done] + [] == PreDirs(root);
    assert |PreDirs(root)[..done]| == |PreDirs(root)|;
    assert PreDirs(root)[..done] == PreDirs(root);
  }

  lemma ListedStart(img: seq<Byte>, own: seq<int>, dirOff: seq<int>, e: Entry, off: int)
    ensures Listed(img, own, dirOff, e, off, e, off)
  {}

  lemma ListEnd()
    ensures ListIds(Null) == {} && Dirs(Null) == [] && ListBytes(Null) == 0
  {}

  /** One entry of a list and the rest of it. */
  lemma ListStep(e: Entry, wr: set<nat>)
    requires e.Entry? && Fine(e) && Separate(e) && ListIds(e) !! wr
    ensures e.id !in wr && e.id in Ids(e) && Ids(e.next) <= Ids(e) && |e.name| <= MAXPATHLEN && Fine(e.next)
            && Separate(e.next)
    ensures ListIds(e.next) !! wr + {e.id} && wr + ListIds(e) == wr + {e.id} + ListIds(e.next)
    ensures ListBytes(e) == EntryBytes(e) + ListBytes(e.next) && EntryBytes(e) >= 0
    ensures Dirs(e) == (if e.child.Entry? then [e] else []) + Dirs(e.next)
  {
    ListInIds(e.next);
  }

  lemma EntryPositive(e: Entry)
    requires e.Entry?
    ensures EntryBytes(e) > 0
  {}

  lemma FrameRefl(img: seq<Byte>, own: seq<int>, dirOff: seq<int>)
    requires |img| == |own|
    ensures Frame(img, img, own, own, dirOff, dirOff, {})
  {}

  /** The end of the stack from start on is reversed, as after every directory. */
  method ReverseFrom(stack0: seq<Entry>, start: nat) returns (stack: seq<Entry>)
    requires start <= |stack0|
    ensures stack == stack0[..start] + Reversed(stack0[start..])
  {
    stack := stack0;
    var lo, hi := start, |stack| - 1;
    while lo < hi
      invariant start <= lo && hi < |stack| == |stack0| && lo <= hi + 1 && lo - start == |stack| - 1 - hi
      invariant forall i :: 0 <= i < start || lo <= i <= hi ==> stack[i] == stack0[i]
      invariant forall i :: start <= i < lo ==> stack[i] == stack0[|stack0| - 1 + start - i]
      invariant forall i :: hi < i < |stack| ==> stack[i] == stack0[|stack0| - 1 + start - i]
      decreases hi - lo
    {
      var tmp := stack[lo];
      stack := stack[lo := stack[hi]];
      stack := stack[hi := tmp];
      lo, hi := lo + 1, hi - 1;
    }
    forall i | 0 <= i < |stack| ensures stack[i] == (stack0[..start] + Reversed(stack0[start..]))[i] {
      if i >= start { assert stack[i] == stack0[|stack0| - 1 + start - i]; }
    }
  }
}
