/** A cramfs image as a whole (pkg/cramfs/mkcramfs.c: write_data, main): reading it gives back the tree. */
module CramFs {
  import opened Results
  import opened CramLayout
  import opened CramImage
  import opened CramData

  // ----- write_data

  /** The bytes reserved for the contents of these entries. */
  function Space(nodes: seq<Entry>, blk: nat): nat
    requires blk > 0
  {
    if nodes == [] then 0
    else (if nodes[0].Entry? && HasData(nodes[0]) then DataBound(|nodes[0].data|, blk) else 0) + Space(nodes[1..], blk)
  }

  lemma {:induction false} SpaceSum(a: seq<Entry>, b: seq<Entry>, blk: nat)
    requires blk > 0
    ensures Space(a + b, blk) == Space(a, blk) + Space(b, blk)
  {
    if a == [] {
      assert a + b == b;
    } else {
      assert (a + b)[1..] == a[1..] + b;
      SpaceSum(a[1..], b, blk);
    }
  }

  /** The bytes that the contents of an entry add to the image: none if it is linked to another one. */
  ghost function OwnBytes(codec: Codec, blk: nat, root: Entry, n: Entry): nat
    requires blk > 0
  {
    if n.Entry? && HasData(n) && SameAs(root, n) == FREE then Stretch(codec, blk, n.data) else 0
  }

  /** The bytes that the contents of these entries add to the image. */
  ghost function DataBytes(codec: Codec, blk: nat, root: Entry, nodes: seq<Entry>): nat
    requires blk > 0
  {
    if nodes == [] then 0 else OwnBytes(codec, blk, root, nodes[0]) + DataBytes(codec, blk, root, nodes[1..])
  }

  lemma {:induction false} DataSum(codec: Codec, blk: nat, root: Entry, a: seq<Entry>, b: seq<Entry>)
    requires blk > 0
    ensures DataBytes(codec, blk, root, a + b) == DataBytes(codec, blk, root, a) + DataBytes(codec, blk, root, b)
  {
    hide OwnBytes;
    if a == [] {
      assert a + b == b;
    } else {
      assert (a + b)[1..] == a[1..] + b;
      DataSum(codec, blk, root, a[1..], b);
    }
  }

  lemma DataParts(codec: Codec, blk: nat, root: Entry, e: Entry)
    requires blk > 0
    ensures Nodes(Null) == [] && DataBytes(codec, blk, root, Nodes(Null)) == 0
    ensures e.Entry? ==> DataBytes(codec, blk, root, Nodes(e)) == OwnBytes(codec, blk, root, e)
                         + DataBytes(codec, blk, root, Nodes(e.child)) + DataBytes(codec, blk, root, Nodes(e.next))
    ensures e.Entry? && !HasData(e) ==> OwnBytes(codec, blk, root, e) == 0
  {
    hide Stretch;
    if e.Entry? {
      NodesAre(e);
      DataSum(codec, blk, root, [e] + Nodes(e.child), Nodes(e.next));
      DataSum(codec, blk, root, [e], Nodes(e.child));
      assert [e][1..] == [];
    }
  }

  /** What the contents add is within the bytes reserved for them, and a link without contents adds its pointers. */
  lemma {:induction false} DataBounds(codec: Codec, blk: nat, root: Entry, nodes: seq<Entry>)
    requires blk > 0 && Inverse(codec)
    requires forall i :: 0 <= i < |nodes| && nodes[i].Entry? && HasData(nodes[i]) ==> |nodes[i].data| < WORD
    ensures DataBytes(codec, blk, root, nodes) <= Space(nodes, blk)
    ensures Hollow(nodes) ==> DataBytes(codec, blk, root, nodes) >= 4 * Pointers(0, blk)
  {
    hide OwnBytes, Inverse, DataBound, Pointers;
    if nodes != [] {
      var rest := nodes[1..];
      DataBounds(codec, blk, root, rest);
      OwnBound(codec, blk, root, nodes[0]);
      if Hollow(nodes) {
        var i :| 0 <= i < |nodes| && nodes[i].Entry? && HasData(nodes[i]) && nodes[i].data == [];
        if i > 0 { assert rest[i - 1] == nodes[i]; }
      }
    }
  }

  lemma OwnBound(codec: Codec, blk: nat, root: Entry, n: Entry)
    requires blk > 0 && Inverse(codec) && (n.Entry? && HasData(n) ==> |n.data| < WORD)
    ensures OwnBytes(codec, blk, root, n) <= if n.Entry? && HasData(n) then DataBound(|n.data|, blk) else 0
    ensures n.Entry? && HasData(n) && n.data == [] ==> OwnBytes(codec, blk, root, n) >= 4 * Pointers(0, blk)
  {
    hide Inverse, Stretch, DataBound, Pointers;
    if n.Entry? && HasData(n) { StretchBound(codec, blk, n.data); }
  }

  /** The contents of n are in the image, where its inode leads to, between the directories and cur. */
  ghost predicate DataAt(img: seq<Byte>, dirOff: seq<int>, offs: seq<int>, codec: Codec, blk: nat, n: Entry,
                         dirEnd: int, cur: int)
    requires blk > 0
  {
    && n.Entry? && n.id < |dirOff| && n.id < |offs| && 0 <= dirOff[n.id] && dirOff[n.id] + INODE_SIZE <= |img|
    && OffsetAt(img, dirOff[n.id]) == offs[n.id] && dirEnd <= offs[n.id]
       && HasFile(img, codec, blk, offs[n.id], n.data, cur)
  }

  ghost predicate HasFile(img: seq<Byte>, codec: Codec, blk: nat, o: int, data: seq<Byte>, cur: int)
    requires blk > 0
  {
    exists end: int :: end <= cur && FileAt(img, codec, blk, o, data, end)
  }

  /** The contents of all entries in done have been written, up to cur. */
  ghost predicate AllData(img: seq<Byte>, dirOff: seq<int>, offs: seq<int>, codec: Codec, blk: nat, done: seq<Entry>,
                          dirEnd: int, cur: int)
    requires blk > 0
  {
    forall k :: 0 <= k < |done| && done[k].Entry? && HasData(done[k])
        ==> DataAt(img, dirOff, offs, codec, blk, done[k], dirEnd, cur)
  }

  /** The tree is stored from off0 on and nothing but its entries lies before dirEnd. */
  ghost predicate Standing(img: seq<Byte>, own: seq<int>, dirOff: seq<int>, tree: Entry, off0: int, dirEnd: int) {
    && Fine(tree) && Separate(tree) && |img| == |own| && 0 <= dirEnd <= |img|
    && Stored(img, own, dirOff, tree, off0, {}) && Owners(own, Ids(tree), dirEnd)
  }

  lemma EntryLocated(img: seq<Byte>, own: seq<int>, dirOff: seq<int>, e: Entry, off: int, ids: set<nat>, dirEnd: int)
    requires EntryAt(img, own, dirOff, e, off) && Owners(own, ids, dirEnd) && 0 <= dirEnd <= |own|
    ensures Located(own, dirOff, e, dirEnd)
  {
    assert own[off + EntryBytes(e) - 1] == e.id;
  }

  lemma {:induction false} NodeLocated(img: seq<Byte>, own: seq<int>, dirOff: seq<int>, e: Entry, off: int,
                                       ids: set<nat>, dirEnd: int, n: Entry)
    requires Stored(img, own, dirOff, e, off, {}) && Owners(own, ids, dirEnd) && n in Nodes(e) && 0 <= dirEnd <= |own|
    ensures Located(own, dirOff, n, dirEnd)
  {
    hide Owners, Located, Word, Head, Padded;
    if n == e {
      EntryLocated(img, own, dirOff, e, off, ids, dirEnd);
    } else if n in Nodes(e.child) {
      NodeLocated(img, own, dirOff, e.child, OffsetAt(img, off), ids, dirEnd, n);
    } else {
      NodeLocated(img, own, dirOff, e.next, off + EntryBytes(e), ids, dirEnd, n);
    }
  }

  /** Only bytes behind the directories have changed, and the inode of file n. */
  ghost predicate Touched(img: seq<Byte>, img': seq<Byte>, own: seq<int>, dirOff: seq<int>, n: Entry, cur: int) {
    && n.Entry? && Frame(img, img', own, own, dirOff, dirOff, {n.id})
    && forall p :: 0 <= p < |own| && own[p] == FREE && p < cur ==> img'[p] == img[p]
  }

  lemma DataKept(img: seq<Byte>, img': seq<Byte>, own: seq<int>, dirOff: seq<int>, offs: seq<int>, codec: Codec,
                 blk: nat, m: Entry, n: Entry, ids: set<nat>, dirEnd: int, cur: int, cur': int)
    requires blk > 0 && Touched(img, img', own, dirOff, n, cur) && DataAt(img, dirOff, offs, codec, blk, m, dirEnd, cur)
    requires m.Entry? && m.id != n.id && Located(own, dirOff, m, dirEnd) && Owners(own, ids, dirEnd)
             && 0 <= dirEnd <= cur <= cur'
    ensures DataAt(img', dirOff, offs, codec, blk, m, dirEnd, cur')
  {
    LocatedKept(img, img', own, own, dirOff, dirOff, {n.id}, m, dirEnd, dirEnd);
    var end: int :| end <= cur && FileAt(img, codec, blk, offs[m.id], m.data, end);
    FileKept(img, img', codec, blk, offs[m.id], m.data, end);
  }

  lemma AllDataKept(img: seq<Byte>, img': seq<Byte>, own: seq<int>, dirOff: seq<int>, offs: seq<int>, offs': seq<int>,
                    codec: Codec, blk: nat, done: seq<Entry>, n: Entry, tree: Entry, off0: int, dirEnd: int, cur: int,
                    cur': int)
    requires blk > 0 && Touched(img, img', own, dirOff, n, cur)
             && AllData(img, dirOff, offs, codec, blk, done, dirEnd, cur)
    requires Standing(img, own, dirOff, tree, off0, dirEnd) && dirEnd <= cur <= cur'
    requires forall k :: 0 <= k < |done| && done[k].Entry? && HasData(done[k])
               ==> done[k] in Nodes(tree) && done[k].id != n.id
    requires |offs'| == |offs| && forall i :: 0 <= i < |offs| && i != n.id ==> offs'[i] == offs[i]
    requires DataAt(img', dirOff, offs', codec, blk, n, dirEnd, cur')
    ensures AllData(img', dirOff, offs', codec, blk, done + [n], dirEnd, cur')
  {
    hide Standing, Touched;
    var more := done + [n];
    forall k | 0 <= k < |more| && more[k].Entry? && HasData(more[k])
      ensures DataAt(img', dirOff, offs', codec, blk, more[k], dirEnd, cur')
    {
      if k < |done| {
        assert more[k] == done[k];
        NodeStands(img, own, dirOff, tree, off0, dirEnd, done[k]);
        DataKept(img, img', own, dirOff, offs, codec, blk, done[k], n, Ids(tree), dirEnd, cur, cur');
      }
    }
  }

  lemma NodeStands(img: seq<Byte>, own: seq<int>, dirOff: seq<int>, tree: Entry, off0: int, dirEnd: int, n: Entry)
    requires Standing(img, own, dirOff, tree, off0, dirEnd) && n in Nodes(tree)
    ensures Located(own, dirOff, n, dirEnd) && Owners(own, Ids(tree), dirEnd) && |own| == |img| && 0 <= dirEnd <= |img|
    ensures n.Entry? && FineHere(n)
  {
    NodeLocated(img, own, dirOff, tree, off0, Ids(tree), dirEnd, n);
    FineNode(tree, n);
  }

  /** Writing the contents of a file leaves the tree as it is. */
  lemma StillStanding(img: seq<Byte>, img': seq<Byte>, own: seq<int>, dirOff: seq<int>, tree: Entry, off0: int,
                      dirEnd: int, n: Entry, cur: int)
    requires Standing(img, own, dirOff, tree, off0, dirEnd) && Touched(img, img', own, dirOff, n, cur)
             && n in Nodes(tree) && HasData(n)
    ensures Standing(img', own, dirOff, tree, off0, dirEnd)
  {
    FineNode(tree, n);
    forall m | m in Nodes(tree) && m.Entry? && m.id in {n.id} ensures m.child.Null? && HasData(m) {
      SameNode(tree, m, n);
    }
    StoredKept(img, img', own, own, dirOff, dirOff, {n.id}, tree, off0, {});
  }

  /** The links that eliminate_doubles has made. */
  ghost predicate LinksMade(same: seq<int>, root: Entry) {
    forall n :: n in Nodes(root) && n.Entry? ==> n.id < |same| && same[n.id] == SameAs(root, n)
  }

  /** The entry of main for the directory itself. */
  ghost predicate IsRoot(e: Entry) {
    e.Entry? && e.next.Null? && !HasData(e)
  }

  /** Before the k-th entry: the tree and the contents of the entries before that one are in place. */
  ghost predicate Before(img: seq<Byte>, own: seq<int>, dirOff: seq<int>, offs: seq<int>, same: seq<int>, codec: Codec,
                         blk: nat, root: Entry, off0: int, dirEnd: int, k: int, cur: int)
  {
    && blk > 0 && IsRoot(root) && Separate(root) && LinksMade(same, root)
    && Standing(img, own, dirOff, root.child, off0, dirEnd) && |offs| == |dirOff| == |same|
    && 0 <= k <= |Nodes(root)| && AllData(img, dirOff, offs, codec, blk, Nodes(root)[..k], dirEnd, cur)
    && dirEnd <= cur && cur % 4 == 0
  }

  lemma NodeInTree(root: Entry, k: int)
    requires IsRoot(root) && 0 <= k < |Nodes(root)|
    ensures Nodes(root)[k].Entry? && (Nodes(root)[k] != root ==> Nodes(root)[k] in Nodes(root.child))
  {
    NodeId(root, Nodes(root)[k]);
    assert Nodes(root) == [root] + Nodes(root.child) + [];
  }

  /** One more entry has got its contents. */
  lemma OneMore(img: seq<Byte>, img': seq<Byte>, own: seq<int>, dirOff: seq<int>, offs: seq<int>, offs': seq<int>,
                same: seq<int>, codec: Codec, blk: nat, root: Entry, off0: int, dirEnd: int, k: int, cur: int,
                cur': int)
    requires Before(img, own, dirOff, offs, same, codec, blk, root, off0, dirEnd, k, cur) && k < |Nodes(root)|
    requires Nodes(root)[k].Entry? && HasData(Nodes(root)[k]) && Touched(img, img', own, dirOff, Nodes(root)[k], cur)
    requires |offs'| == |offs| && forall i :: 0 <= i < |offs| && i != Nodes(root)[k].id ==> offs'[i] == offs[i]
    requires cur <= cur' && cur' % 4 == 0 && DataAt(img', dirOff, offs', codec, blk, Nodes(root)[k], dirEnd, cur')
    ensures Before(img', own, dirOff, offs', same, codec, blk, root, off0, dirEnd, k + 1, cur')
  {
    hide Standing, Touched, DataAt, LinksMade, Separate, Nodes, AllData;
    var nodes, n := Nodes(root), Nodes(root)[k];
    NodeInTree(root, k);
    forall j | 0 <= j < k && nodes[..k][j].Entry? && HasData(nodes[..k][j])
      ensures nodes[..k][j] in Nodes(root.child) && nodes[..k][j].id != n.id
    {
      NodeInTree(root, j);
      NodesApart(root, j, k);
    }
    AllDataKept(img, img', own, dirOff, offs, offs', codec, blk, nodes[..k], n, root.child, off0, dirEnd, cur, cur');
    StillStanding(img, img', own, dirOff, root.child, off0, dirEnd, n, cur);
    assert nodes[..k + 1] == nodes[..k] + [n];
  }

  lemma NoData(img: seq<Byte>, own: seq<int>, dirOff: seq<int>, offs: seq<int>, same: seq<int>, codec: Codec, blk: nat,
               root: Entry, off0: int, dirEnd: int, k: int, cur: int)
    requires Before(img, own, dirOff, offs, same, codec, blk, root, off0, dirEnd, k, cur) && k < |Nodes(root)|
    requires Nodes(root)[k].Entry? && !HasData(Nodes(root)[k])
    ensures Before(img, own, dirOff, offs, same, codec, blk, root, off0, dirEnd, k + 1, cur)
  {
    assert Nodes(root)[..k + 1] == Nodes(root)[..k] + [Nodes(root)[k]];
  }

  /** The entry that the k-th one is linked to: its contents are there already, and they are the same. */
  lemma LinkReady(img: seq<Byte>, own: seq<int>, dirOff: seq<int>, offs: seq<int>, same: seq<int>, codec: Codec,
                  blk: nat, root: Entry, off0: int, dirEnd: int, k: int, cur: int)
    requires Before(img, own, dirOff, offs, same, codec, blk, root, off0, dirEnd, k, cur) && k < |Nodes(root)|
    requires Nodes(root)[k].Entry? && HasData(Nodes(root)[k]) && Nodes(root)[k].id < |same|
             && same[Nodes(root)[k].id] != FREE
    ensures var n := Nodes(root)[k]; var s := same[n.id];
            && 0 <= s < |offs| && s != n.id && 0 <= dirEnd <= offs[s] < OFFSET_LIMIT && offs[s] % 4 == 0
            && n.data != [] && HasFile(img, codec, blk, offs[s], n.data, cur)
  {
    hide Standing, HasFile, SameAs, Separate, Nodes, DataAt;
    var nodes := Nodes(root);
    var n := nodes[k];
    NodeInTree(root, k);
    StandingFacts(img, own, dirOff, root.child, off0, dirEnd, n);
    assert n in nodes;
    LinkedFull(root, n);
    LinksBack(root, k);
    var j :| 0 <= j < k && nodes[j].Entry? && nodes[j].id == same[n.id] && SameContents(nodes[j], n)
        && SameAs(root, nodes[j]) == FREE;
    NodesApart(root, j, k);
    assert nodes[..k][j] == nodes[j];
    DataOffset(img, dirOff, offs, codec, blk, nodes[..k][j], dirEnd, cur);
  }

  lemma LinkedFull(root: Entry, n: Entry)
    requires n.Entry? && SameAs(root, n) != FREE
    ensures n.size != 0 && n.data != []
  {}

  lemma StandingFacts(img: seq<Byte>, own: seq<int>, dirOff: seq<int>, tree: Entry, off0: int, dirEnd: int, n: Entry)
    requires Standing(img, own, dirOff, tree, off0, dirEnd) && n in Nodes(tree)
    ensures 0 <= dirEnd && n.Entry? && (n.data != [] ==> n.size != 0)
  {
    FineNode(tree, n);
  }

  lemma DataOffset(img: seq<Byte>, dirOff: seq<int>, offs: seq<int>, codec: Codec, blk: nat, m: Entry, dirEnd: int,
                   cur: int)
    requires blk > 0 && DataAt(img, dirOff, offs, codec, blk, m, dirEnd, cur)
    ensures m.Entry? && m.id < |offs| && dirEnd <= offs[m.id] < OFFSET_LIMIT && offs[m.id] % 4 == 0
    ensures HasFile(img, codec, blk, offs[m.id], m.data, cur)
  {}

  lemma FileStays(img: seq<Byte>, img': seq<Byte>, own: seq<int>, codec: Codec, blk: nat, o: int, data: seq<Byte>,
                  ids: set<nat>, dirEnd: int, cur: int)
    requires blk > 0 && HasFile(img, codec, blk, o, data, cur) && Owners(own, ids, dirEnd)
             && |img'| == |img| == |own| && 0 <= dirEnd <= o
    requires forall p :: 0 <= p < |own| && own[p] == FREE && p < cur ==> img'[p] == img[p]
    ensures HasFile(img', codec, blk, o, data, cur)
  {
    var end: int :| end <= cur && FileAt(img, codec, blk, o, data, end);
    FileKept(img, img', codec, blk, o, data, end);
  }

  /** Bytes in front of k that belong to no entry are as they were. */
  ghost predicate FreeKept(img: seq<Byte>, img': seq<Byte>, own: seq<int>, k: int) {
    |img'| == |img| && forall p :: 0 <= p < k && p < |img| && p < |own| && own[p] == FREE ==> img'[p] == img[p]
  }

  lemma FreeKeptSelf(img: seq<Byte>, own: seq<int>, k: int)
    ensures FreeKept(img, img, own, k)
  {}

  lemma FreeKeptOn(img0: seq<Byte>, img1: seq<Byte>, img2: seq<Byte>, own: seq<int>, k: int, k': int)
    requires FreeKept(img0, img1, own, k) && FreeKept(img1, img2, own, k') && k <= k'
    ensures FreeKept(img0, img2, own, k)
  {}

  /** The body of the loop of write_data for an entry with contents. */
  method WriteContents(rom: RomImage, codec: Codec, blk: nat, n: Entry, cur0: int,
                       ghost root: Entry, ghost off0: int, ghost dirEnd: int, ghost k: int) returns (r: Result<int>)
    requires rom.Shape() && Inverse(codec) && blk >= 26 && 0 <= k < |Nodes(root)| && n == Nodes(root)[k]
             && n.Entry? && HasData(n)
    requires Before(rom.base[..], rom.own, rom.dirOffset[..], rom.offset[..], rom.same[..], codec,
             blk, root, off0, dirEnd, k, cur0)
    requires cur0 <= rom.base.Length < WORD && |n.data| < WORD && rom.offset != rom.dirOffset && rom.offset != rom.same
    modifies rom.base, rom.offset
    ensures r.Failure? ==> if r.error == NotEnoughSpace
                           then cur0 + OwnBytes(codec, blk, root, n) > rom.base.Length
                           else r.error == FilesystemTooBig && cur0 >= OFFSET_LIMIT
    ensures r.Success? ==> r.value == cur0 + OwnBytes(codec, blk, root, n) <= rom.base.Length
    ensures r.Success? ==> FreeKept(old(rom.base[..]), rom.base[..], rom.own, cur0)
    ensures r.Success?
            ==> Before(rom.base[..], rom.own, rom.dirOffset[..], rom.offset[..], rom.same[..],
                  codec, blk, root, off0, dirEnd, k + 1, r.value)
  {
    hide Before, HasFile, FileAt, Located, Frame, Owners, Inverse, Word, Separate, Stretch, SameAs, EmptyAt;
    ghost var img, offs := rom.base[..], rom.offset[..];
    LinkIs(img, rom.own, rom.dirOffset[..], offs, rom.same[..], codec, blk, root, off0, dirEnd, k, cur0);
    Ready(img, rom.own, rom.dirOffset[..], offs, rom.same[..], codec, blk, root, off0, dirEnd, k, cur0);
    if rom.same[n.id] != FREE {
      LinkReady(img, rom.own, rom.dirOffset[..], offs, rom.same[..], codec, blk, root, off0, dirEnd, k, cur0);
      var s := rom.same[n.id];
      var set0 := rom.SetDataOffset(n.id, rom.offset[s]);
      assert set0.Success?;
      rom.offset[n.id] := rom.offset[s];
      FileStays(img, rom.base[..], rom.own, codec, blk, rom.offset[n.id], n.data, Ids(root.child), dirEnd, cur0);
      assert Touched(img, rom.base[..], rom.own, rom.dirOffset[..], n, cur0);
      OneMore(img, rom.base[..], rom.own, rom.dirOffset[..], offs, rom.offset[..], rom.same[..],
          codec, blk, root, off0, dirEnd, k, cur0, cur0);
      return Success(cur0);
    }
    var set1 := rom.SetDataOffset(n.id, cur0);
    if set1.Failure? { return Failure(set1.error); }
    ghost var img1 := rom.base[..];
    rom.offset[n.id] := cur0;
    var done := DoCompress(rom, codec, blk, cur0, n.data);
    if done.Failure? { return Failure(done.error); }
    var cur := done.value;
    Compressed(img, img1, rom.base[..], rom.own, rom.dirOffset[..], n, Ids(root.child), dirEnd, cur0);
    HasFileNow(rom.base[..], codec, blk, cur0, n.data, cur);
    OneMore(img, rom.base[..], rom.own, rom.dirOffset[..], offs, rom.offset[..], rom.same[..],
        codec, blk, root, off0, dirEnd, k, cur0, cur);
    return Success(cur);
  }

  lemma LinkIs(img: seq<Byte>, own: seq<int>, dirOff: seq<int>, offs: seq<int>, same: seq<int>, codec: Codec, blk: nat,
               root: Entry, off0: int, dirEnd: int, k: int, cur: int)
    requires Before(img, own, dirOff, offs, same, codec, blk, root, off0, dirEnd, k, cur) && k < |Nodes(root)|
             && Nodes(root)[k].Entry?
    ensures var n := Nodes(root)[k]; n.id < |same| && same[n.id] == SameAs(root, n)
  {
    hide SameAs, Standing, AllData, Nodes, Separate, IsRoot;
    assert Nodes(root)[k] in Nodes(root);
  }

  lemma HasFileNow(img: seq<Byte>, codec: Codec, blk: nat, o: int, data: seq<Byte>, cur: int)
    requires blk > 0 && FileAt(img, codec, blk, o, data, cur)
    ensures HasFile(img, codec, blk, o, data, cur)
  {}

  lemma Ready(img: seq<Byte>, own: seq<int>, dirOff: seq<int>, offs: seq<int>, same: seq<int>, codec: Codec, blk: nat,
              root: Entry, off0: int, dirEnd: int, k: int, cur: int)
    requires Before(img, own, dirOff, offs, same, codec, blk, root, off0, dirEnd, k, cur) && k < |Nodes(root)|
    requires Nodes(root)[k].Entry? && HasData(Nodes(root)[k])
    ensures var n := Nodes(root)[k];
            && n.id < |dirOff| == |same| == |offs| && 0 <= dirOff[n.id] && dirOff[n.id] + INODE_SIZE <= |img| == |own|
            && (forall p :: dirOff[n.id] <= p < dirOff[n.id] + INODE_SIZE ==> own[p] == n.id)
               && dirOff[n.id] + INODE_SIZE <= dirEnd
    ensures root.Entry? && Owners(own, Ids(root.child), dirEnd) && 0 <= dirEnd <= cur && cur % 4 == 0
  {
    hide Stored;
    NodeInTree(root, k);
    NodeStands(img, own, dirOff, root.child, off0, dirEnd, Nodes(root)[k]);
  }

  lemma OwnedSame(img1: seq<Byte>, img2: seq<Byte>, own: seq<int>, ids: set<nat>, dirEnd: int, cur: int)
    requires Owners(own, ids, dirEnd) && 0 <= dirEnd <= cur && |img1| == |img2| == |own|
    requires forall p :: 0 <= p < cur && p < |img1| ==> img2[p] == img1[p]
    ensures forall p :: 0 <= p < |own| && own[p] != FREE ==> img2[p] == img1[p]
  {}

  lemma FrameSame(img: seq<Byte>, img1: seq<Byte>, img2: seq<Byte>, own: seq<int>, dirOff: seq<int>, id: nat)
    requires Frame(img, img1, own, own, dirOff, dirOff, {id}) && |img2| == |img1|
    requires forall p :: 0 <= p < |own| && own[p] != FREE ==> img2[p] == img1[p]
    requires id < |dirOff| && 0 <= dirOff[id] && dirOff[id] + INODE_SIZE <= |img1|
             && Word(img2, dirOff[id] + 8) == Word(img1, dirOff[id] + 8)
    ensures Frame(img, img2, own, own, dirOff, dirOff, {id})
  {
    hide InWord, Word;
  }

  lemma Compressed(img: seq<Byte>, img1: seq<Byte>, img2: seq<Byte>, own: seq<int>, dirOff: seq<int>, n: Entry,
                   ids: set<nat>, dirEnd: int, cur: int)
    requires n.Entry? && Frame(img, img1, own, own, dirOff, dirOff, {n.id}) && Owners(own, ids, dirEnd)
             && 0 <= dirEnd <= cur
    requires n.id < |dirOff| && 0 <= dirOff[n.id] && dirOff[n.id] + INODE_SIZE <= dirEnd <= |img1| == |img2|
    requires forall p :: 0 <= p < |own| && own[p] == FREE && p < |img| && p < |img1| ==> img1[p] == img[p]
    requires forall p :: 0 <= p < cur && p < |img1| ==> img2[p] == img1[p]
    ensures Touched(img, img2, own, dirOff, n, cur) && OffsetAt(img2, dirOff[n.id]) == OffsetAt(img1, dirOff[n.id])
  {
    hide Owners, Frame, Word;
    FrameSizes(img, img1, own, dirOff, n.id);
    WordAgrees(img1, img2, dirOff[n.id] + 8);
    OwnedSame(img1, img2, own, ids, dirEnd, cur);
    FrameSame(img, img1, img2, own, dirOff, n.id);
  }

  lemma FrameSizes(img: seq<Byte>, img1: seq<Byte>, own: seq<int>, dirOff: seq<int>, id: nat)
    requires Frame(img, img1, own, own, dirOff, dirOff, {id})
    ensures |img1| == |img| == |own|
  {}

  /** The entries from the k-th one on begin with e and everything below and behind it. */
  ghost predicate Upcoming(root: Entry, k: int, e: Entry) {
    0 <= k && k + |Nodes(e)| <= |Nodes(root)| && Nodes(root)[k..k + |Nodes(e)|] == Nodes(e)
  }

  lemma UpcomingParts(root: Entry, k: int, e: Entry)
    requires Upcoming(root, k, e) && e.Entry?
    ensures k < |Nodes(root)| && Nodes(root)[k] == e && |Nodes(e)| == 1 + |Nodes(e.child)| + |Nodes(e.next)|
    ensures Upcoming(root, k + 1, e.child) && Upcoming(root, k + 1 + |Nodes(e.child)|, e.next)
  {
    hide Nodes;
    NodesAre(e);
    Sliced(Nodes(root), k, e, Nodes(e.child), Nodes(e.next));
  }

  lemma NodesAre(e: Entry)
    requires e.Entry?
    ensures Nodes(e) == [e] + Nodes(e.child) + Nodes(e.next)
  {}

  lemma Sliced(all: seq<Entry>, k: int, e: Entry, a: seq<Entry>, b: seq<Entry>)
    requires 0 <= k && k + 1 + |a| + |b| <= |all| && all[k..k + |[e] + a + b|] == [e] + a + b
    ensures all[k] == e && all[k..] != [] && all[k..][0] == e && all[k..][1..] == all[k + 1..]
    ensures all[k + 1..k + 1 + |a|] == a && all[k + 1 + |a|..k + 1 + |a| + |b|] == b
  {
    var s := [e] + a + b;
    forall i | 0 <= i < |s| ensures all[k + i] == s[i] { assert all[k..k + |s|][i] == s[i]; }
    forall i | 0 <= i < |a| ensures all[k + 1 + i] == a[i] { assert s[1 + i] == a[i] && all[k + (1 + i)] == s[1 + i]; }
    forall i | 0 <= i < |b| ensures all[k + 1 + |a| + i] == b[i] {
      assert s[1 + |a| + i] == b[i] && all[k + (1 + |a| + i)] == s[1 + |a| + i];
    }
  }

  lemma SpaceStep(nodes: seq<Entry>, blk: nat)
    requires blk > 0 && nodes != [] && nodes[0].Entry?
    ensures Space(nodes, blk) == (if HasData(nodes[0]) then DataBound(|nodes[0].data|, blk)
            else 0) + Space(nodes[1..], blk)
  {}

  /** There is a link without contents. */
  ghost predicate Hollow(nodes: seq<Entry>) {
    exists i :: 0 <= i < |nodes| && nodes[i].Entry? && HasData(nodes[i]) && nodes[i].data == []
  }

  lemma HollowSum(a: seq<Entry>, b: seq<Entry>)
    ensures Hollow(a + b) <==> Hollow(a) || Hollow(b)
  {
    var s := a + b;
    if Hollow(a) {
      var i :| 0 <= i < |a| && a[i].Entry? && HasData(a[i]) && a[i].data == [];
      assert s[i] == a[i];
    }
    if Hollow(b) {
      var i :| 0 <= i < |b| && b[i].Entry? && HasData(b[i]) && b[i].data == [];
      assert s[|a| + i] == b[i];
    }
  }

  lemma HollowParts(e: Entry, a: seq<Entry>, b: seq<Entry>)
    requires e.Entry?
    ensures Hollow([e] + a + b) <==> (HasData(e) && e.data == []) || Hollow(a) || Hollow(b)
  {
    HollowSum([e] + a, b);
    HollowSum([e], a);
    assert Hollow([e]) <==> HasData(e) && e.data == [] by { assert [e][0] == e; }
  }

  /** Entries with contents have no children. */
  lemma LeafOnly(img: seq<Byte>, own: seq<int>, dirOff: seq<int>, offs: seq<int>, same: seq<int>, codec: Codec,
                 blk: nat, root: Entry, off0: int, dirEnd: int, k: int, cur: int)
    requires Before(img, own, dirOff, offs, same, codec, blk, root, off0, dirEnd, k, cur) && k < |Nodes(root)|
    ensures var e := Nodes(root)[k]; e.Entry? && (HasData(e) ==> e.child.Null? && |e.data| < WORD)
  {
    NodeInTree(root, k);
    if Nodes(root)[k] != root { FineNode(root.child, Nodes(root)[k]); }
  }

  /** write_data: the contents of all entries from e on, in order; e itself is an entry. */
  method WriteData(rom: RomImage, codec: Codec, blk: nat, e: Entry, offset0: int,
                   ghost root: Entry, ghost off0: int, ghost dirEnd: int, ghost k0: int) returns (r: Result<int>)
    requires rom.Shape() && Inverse(codec) && blk >= 26 && e.Entry? && Upcoming(root, k0, e)
    requires Before(rom.base[..], rom.own, rom.dirOffset[..], rom.offset[..], rom.same[..], codec,
             blk, root, off0, dirEnd, k0, offset0)
    requires offset0 <= rom.base.Length < WORD && rom.offset != rom.dirOffset && rom.offset != rom.same
    modifies rom.base, rom.offset
    ensures k0 + |Nodes(e)| <= |Nodes(root)|
    ensures var end := offset0 + DataBytes(codec, blk, root, Nodes(e));
            if r.Success? then r.value == end <= rom.base.Length
            else if r.error == NotEnoughSpace then end > rom.base.Length
            else r.error == FilesystemTooBig && end >= OFFSET_LIMIT && rom.base.Length >= OFFSET_LIMIT
    ensures r.Success? ==> FreeKept(old(rom.base[..]), rom.base[..], rom.own, offset0)
    ensures r.Success?
            ==> Before(rom.base[..], rom.own, rom.dirOffset[..], rom.offset[..], rom.same[..],
                  codec, blk, root, off0, dirEnd,
                                  k0 + |Nodes(e)|, r.value)
    decreases e
  {
    hide Before, Inverse, Nodes, OwnBytes, DataBytes, Upcoming, FreeKept;
    FreeKeptSelf(rom.base[..], rom.own, offset0);
    var entry, offset := e, offset0;
    ghost var k := k0;
    UpcomingBounds(root, k, e);
    while entry.Entry?
      invariant Upcoming(root, k, entry) && k + |Nodes(entry)| == k0 + |Nodes(e)| <= |Nodes(root)| && 0 <= k
      invariant entry == e || entry < e
      invariant Before(rom.base[..], rom.own, rom.dirOffset[..], rom.offset[..], rom.same[..],
                codec, blk, root, off0, dirEnd, k, offset)
      invariant offset0 <= offset <= rom.base.Length
      invariant offset + DataBytes(codec, blk, root, Nodes(entry)) == offset0 + DataBytes(codec, blk, root, Nodes(e))
      invariant FreeKept(old(rom.base[..]), rom.base[..], rom.own, offset0)
      decreases entry
    {
      ghost var img1 := rom.base[..];
      UpcomingParts(root, k, entry);
      DataParts(codec, blk, root, entry);
      LeafOnly(rom.base[..], rom.own, rom.dirOffset[..], rom.offset[..], rom.same[..], codec, blk,
          root, off0, dirEnd, k, offset);
      if HasData(entry) {
        var written := WriteContents(rom, codec, blk, entry, offset, root, off0, dirEnd, k);
        if written.Failure? { return Failure(written.error); }
        FreeKeptOn(old(rom.base[..]), img1, rom.base[..], rom.own, offset0, offset);
        offset := written.value;
      } else {
        NoData(rom.base[..], rom.own, rom.dirOffset[..], rom.offset[..], rom.same[..], codec, blk,
            root, off0, dirEnd, k, offset);
        if entry.child.Entry? {
          var inner := WriteData(rom, codec, blk, entry.child, offset, root, off0, dirEnd, k + 1);
          if inner.Failure? { return Failure(inner.error); }
          FreeKeptOn(old(rom.base[..]), img1, rom.base[..], rom.own, offset0, offset);
          offset := inner.value;
        }
      }
      k := k + 1 + |Nodes(entry.child)|;
      entry := entry.next;
      UpcomingBounds(root, k, entry);
    }
    DataParts(codec, blk, root, entry);
    return Success(offset);
  }

  lemma NoNodes()
    ensures Nodes(Null) == [] && !Hollow([])
  {}

  lemma UpcomingBounds(root: Entry, k: int, e: Entry)
    requires Upcoming(root, k, e)
    ensures 0 <= k && k + |Nodes(e)| <= |Nodes(root)|
  {}

  // ----- the reader

  /** What a reader finds in a directory: an entry with everything below it, and the rest of the directory. */
  datatype Listing = End | Item(name: seq<Byte>, mode: nat, uid: nat, gid: nat, size: nat, data: seq<Byte>,
      inside: Listing, rest: Listing)

  /** The tree as an image can hold it: mode and uid have 16 bits, gid 8 and size 24. */
  function Reflect(e: Entry): Listing {
    if e.Null? then End
    else Item(e.name, e.mode % 0x1_0000, e.uid % 0x1_0000, e.gid % 0x100, e.size % SIZE_LIMIT,
        e.data, Reflect(e.child), Reflect(e.next))
  }

  /** The name without its padding. */
  function Stripped(s: seq<Byte>): seq<Byte> {
    if s == [] || s[|s| - 1] != 0 then s else Stripped(s[..|s| - 1])
  }

  lemma {:induction false} StrippedPadded(name: seq<Byte>, n: nat)
    requires name != [] && name[|name| - 1] != 0
    ensures Stripped(name + Zeros(n)) == name
  {
    if n == 0 {
      assert name + Zeros(0) == name;
    } else {
      var s := name + Zeros(n);
      assert s[..|s| - 1] == name + Zeros(n - 1);
      StrippedPadded(name, n - 1);
    }
  }

  function Half(img: seq<Byte>, p: int): nat
    requires 0 <= p && p + 2 <= |img|
  {
    var a: int, b: int := img[p], img[p + 1];
    a + 256 * b
  }

  function Third(img: seq<Byte>, p: int): nat
    requires 0 <= p && p + 3 <= |img|
  {
    var a: int, b: int, c: int := img[p], img[p + 1], img[p + 2];
    a + 256 * (b + 256 * c)
  }

  /** A directory of size bytes at off, read as the kernel does: inode and name of one entry after the other, the
      contents of directories and files where their inodes lead to. Fuel bounds the depth for broken images. */
  function ReadDir(img: seq<Byte>, codec: Codec, blk: nat, off: int, size: int, fuel: nat): Option<Listing>
    requires blk > 0
    decreases fuel
  {
    if size == 0 then Some(End)
    else if fuel == 0 || off < 0 || size < INODE_SIZE || off + size > |img| then None
    else
      var namelen := Word(img, off + 8) % 64 * 4;
      if INODE_SIZE + namelen > size then None
      else
        var name := Stripped(img[off + INODE_SIZE..off + INODE_SIZE + namelen]);
        var mode, uid, gid, n := Half(img, off), Half(img, off + 2), img[off + 7], Third(img, off + 4);
        var inside := if IsDir(mode) then ReadDir(img, codec, blk, OffsetAt(img, off), n, fuel - 1) else Some(End);
        var data := if IsReg(mode) || IsLnk(mode) then ReadFile(img, codec, blk, OffsetAt(img, off), n) else Some([]);
        var rest := ReadDir(img, codec, blk, off + INODE_SIZE + namelen, size - INODE_SIZE - namelen, fuel - 1);
        if inside.None? || data.None? || rest.None? then None
        else Some(Item(name, mode, uid, gid, n, data.value, inside.value, rest.value))
  }

  lemma HeadRead(img: seq<Byte>, off: int, e: Entry)
    requires e.Entry? && 0 <= off && off + 8 <= |img| && img[off..off + 8] == Head(e)
    ensures Half(img, off) == e.mode % 0x1_0000 && Half(img, off + 2) == e.uid % 0x1_0000
    ensures img[off + 7] == e.gid % 0x100 && Third(img, off + 4) == e.size % SIZE_LIMIT
  {
    var h := Head(e);
    forall i | 0 <= i < 8 ensures img[off + i] == h[i] { assert img[off..off + 8][i] == h[i]; }
    TwoBytes(e.mode);
    TwoBytes(e.uid);
    ThreeBytes(e.size);
  }

  lemma TwoBytes(x: nat)
    ensures x % 256 + 256 * (x / 256 % 256) == x % 0x1_0000
  {
    var a := x / 256;
    assert x == 256 * a + x % 256 && a == 256 * (a / 256) + a % 256;
    assert x == 0x1_0000 * (a / 256) + (256 * (a % 256) + x % 256);
  }

  lemma ThreeBytes(x: nat)
    ensures x % 256 + 256 * (x / 256 % 256 + 256 * (x / 65536 % 256)) == x % SIZE_LIMIT
  {
    TwoBytes(x);
    var b := x / 65536;
    assert x == 65536 * b + x % 65536 && b == 256 * (b / 256) + b % 256;
    assert x == SIZE_LIMIT * (b / 256) + (65536 * (b % 256) + x % 65536);
  }

  /** The type of a file does not depend on the bits of mode that are cut off. */
  lemma TypeKept(mode: nat)
    ensures IsDir(mode % 0x1_0000) == IsDir(mode) && IsReg(mode % 0x1_0000) == IsReg(mode)
            && IsLnk(mode % 0x1_0000) == IsLnk(mode)
  {
    var q, r := mode / 0x1_0000, mode % 0x1_0000;
    assert mode == 16 * q * 0x1000 + r;
    assert mode / 0x1000 == 16 * q + r / 0x1000;
  }

  /** The contents of every file below e can be read where its inode leads to. */
  ghost predicate Readable(img: seq<Byte>, dirOff: seq<int>, codec: Codec, blk: nat, e: Entry)
    requires blk > 0
  {
    forall n :: n in Nodes(e) && n.Entry? && HasData(n) ==>
      && n.id < |dirOff| && 0 <= dirOff[n.id] && dirOff[n.id] + INODE_SIZE <= |img|
      && ReadFile(img, codec, blk, OffsetAt(img, dirOff[n.id]), |n.data|) == Some(n.data)
  }

  /** The contents of entry e, at off, are read: of a file, or of nothing. */
  ghost predicate DataBack(img: seq<Byte>, codec: Codec, blk: nat, off: int, e: Entry)
    requires blk > 0 && e.Entry? && 0 <= off && off + INODE_SIZE <= |img|
  {
    (if IsReg(e.mode) || IsLnk(e.mode) then ReadFile(img, codec, blk, OffsetAt(img, off), e.size % SIZE_LIMIT)
        else Some([])) == Some(e.data)
  }

  /** The contents of entry e are read back. */
  lemma DataRead(img: seq<Byte>, own: seq<int>, dirOff: seq<int>, codec: Codec, blk: nat, e: Entry, off: int)
    requires blk > 0 && EntryAt(img, own, dirOff, e, off) && FineHere(e) && Readable(img, dirOff, codec, blk, e)
    ensures DataBack(img, codec, blk, off, e)
  {
    hide Word, ReadFile, Nodes, Head, Padded, IsReg, IsLnk, IsDir;
    FirstNode(e);
    if (IsReg(e.mode) || IsLnk(e.mode)) && e.size == 0 { NothingRead(img, codec, blk, OffsetAt(img, off)); }
  }

  lemma FirstNode(e: Entry)
    requires e.Entry?
    ensures e in Nodes(e)
  {}

  lemma NothingRead(img: seq<Byte>, codec: Codec, blk: nat, o: int)
    requires blk > 0
    ensures ReadFile(img, codec, blk, o, 0) == Some([])
  {}

  /** An inode and what is read from where it leads to. */
  ghost predicate ItemRead(img: seq<Byte>, codec: Codec, blk: nat, off: int, e: Entry, fuel: nat)
    requires blk > 0 && e.Entry? && 0 <= off && off + EntryBytes(e) <= |img| && fuel > 0
  {
    && Word(img, off + 8) % 64 * 4 == Pad4(|e.name|)
       && Stripped(img[off + INODE_SIZE..off + INODE_SIZE + Pad4(|e.name|)]) == e.name
    && Half(img, off) == e.mode % 0x1_0000 && Half(img, off + 2) == e.uid % 0x1_0000
    && img[off + 7] == e.gid % 0x100 && Third(img, off + 4) == e.size % SIZE_LIMIT
    && DataBack(img, codec, blk, off, e)
    && (if IsDir(e.mode) then ReadDir(img, codec, blk, OffsetAt(img, off), e.size % SIZE_LIMIT, fuel - 1)
       else Some(End)) == Some(Reflect(e.child))
  }

  lemma ItemStep(img: seq<Byte>, codec: Codec, blk: nat, off: int, e: Entry, fuel: nat)
    requires blk > 0 && e.Entry? && 0 <= off && off + ListBytes(e) <= |img| && fuel > 0 && off + EntryBytes(e) <= |img|
    requires ItemRead(img, codec, blk, off, e, fuel)
    requires ReadDir(img, codec, blk, off + EntryBytes(e), ListBytes(e.next), fuel - 1) == Some(Reflect(e.next))
    ensures ReadDir(img, codec, blk, off, ListBytes(e), fuel) == Some(Reflect(e))
  {
    hide Word, ReadFile, IsDir, IsReg, IsLnk, Stripped, Half, Third, OffsetAt;
    TypeKept(e.mode);
  }

  /** One entry is read back when what is inside it and what is behind it are. */
  lemma ReadStep(img: seq<Byte>, own: seq<int>, dirOff: seq<int>, codec: Codec, blk: nat, e: Entry, off: int, fuel: nat)
    requires blk > 0 && EntryAt(img, own, dirOff, e, off) && FineHere(e) && fuel >= 1 && off + ListBytes(e) <= |img|
    requires DataBack(img, codec, blk, off, e)
    requires IsDir(e.mode) ==> e.size < SIZE_LIMIT
    requires IsDir(e.mode)
             ==> ReadDir(img, codec, blk, OffsetAt(img, off), ListBytes(e.child), fuel - 1) == Some(Reflect(e.child))
    requires ReadDir(img, codec, blk, off + EntryBytes(e), ListBytes(e.next), fuel - 1) == Some(Reflect(e.next))
    ensures ReadDir(img, codec, blk, off, ListBytes(e), fuel) == Some(Reflect(e))
  {
    hide *;
    EntryRead(img, own, dirOff, e, off);
    EntryBounds(img, own, dirOff, e, off);
    ReflectNone();
    ItemThere(img, codec, blk, off, e, fuel);
    ItemStep(img, codec, blk, off, e, fuel);
  }

  lemma EntryBounds(img: seq<Byte>, own: seq<int>, dirOff: seq<int>, e: Entry, off: int)
    requires EntryAt(img, own, dirOff, e, off) && FineHere(e) && (IsDir(e.mode) ==> e.size < SIZE_LIMIT)
    ensures e.Entry? && 0 <= off && off + EntryBytes(e) <= |img| && INODE_SIZE <= EntryBytes(e)
    ensures if IsDir(e.mode) then e.size % SIZE_LIMIT == ListBytes(e.child) else e.child.Null?
  {}

  lemma ReflectNone()
    ensures Reflect(Null) == End
  {}

  lemma ItemThere(img: seq<Byte>, codec: Codec, blk: nat, off: int, e: Entry, fuel: nat)
    requires blk > 0 && e.Entry? && 0 <= off && off + EntryBytes(e) <= |img| && fuel > 0
    requires Word(img, off + 8) % 64 * 4 == Pad4(|e.name|)
             && Stripped(img[off + INODE_SIZE..off + INODE_SIZE + Pad4(|e.name|)]) == e.name
    requires Half(img, off) == e.mode % 0x1_0000 && Half(img, off + 2) == e.uid % 0x1_0000
    requires img[off + 7] == e.gid % 0x100 && Third(img, off + 4) == e.size % SIZE_LIMIT
    requires DataBack(img, codec, blk, off, e)
    requires (if IsDir(e.mode) then ReadDir(img, codec, blk, OffsetAt(img, off), e.size % SIZE_LIMIT, fuel - 1)
             else Some(End)) == Some(Reflect(e.child))
    ensures ItemRead(img, codec, blk, off, e, fuel)
  {}

  lemma ReadableParts(img: seq<Byte>, dirOff: seq<int>, codec: Codec, blk: nat, e: Entry)
    requires blk > 0 && Readable(img, dirOff, codec, blk, e) && e.Entry?
    ensures Readable(img, dirOff, codec, blk, e.child) && Readable(img, dirOff, codec, blk, e.next)
    ensures |Nodes(e)| == 1 + |Nodes(e.child)| + |Nodes(e.next)|
  {}

  lemma NoEntries(img: seq<Byte>, codec: Codec, blk: nat, off: int, fuel: nat)
    requires blk > 0
    ensures ReadDir(img, codec, blk, off, 0, fuel) == Some(End) && Reflect(Null) == End && ListBytes(Null) == 0
  {}

  /** A stored tree is read back. */
  lemma {:induction false} ReadsBack(img: seq<Byte>, own: seq<int>, dirOff: seq<int>, codec: Codec, blk: nat, e: Entry,
                                     off: int, fuel: nat)
    requires blk > 0 && Stored(img, own, dirOff, e, off, {}) && Fine(e) && Sized(e)
             && Readable(img, dirOff, codec, blk, e) && fuel >= |Nodes(e)|
    requires off + ListBytes(e) <= |img|
    ensures ReadDir(img, codec, blk, off, ListBytes(e), fuel) == Some(Reflect(e))
    decreases e
  {
    hide ReadDir, Reflect, Readable, Nodes, Word, ReadFile;
    if e.Entry? {
      ReadableParts(img, dirOff, codec, blk, e);
      DataRead(img, own, dirOff, codec, blk, e, off);
      ReadsBack(img, own, dirOff, codec, blk, e.next, off + EntryBytes(e), fuel - 1);
      if e.child.Entry? {
        StoredFits(img, own, dirOff, e.child, OffsetAt(img, off));
        ReadsBack(img, own, dirOff, codec, blk, e.child, OffsetAt(img, off), fuel - 1);
      } else {
        NoEntries(img, codec, blk, OffsetAt(img, off), fuel - 1);
      }
      ReadStep(img, own, dirOff, codec, blk, e, off, fuel);
    } else {
      NoEntries(img, codec, blk, off, fuel);
    }
  }

  lemma {:induction false} StoredFits(img: seq<Byte>, own: seq<int>, dirOff: seq<int>, e: Entry, off: int)
    requires Stored(img, own, dirOff, e, off, {}) && (e.Null? ==> off <= |img|)
    ensures off + ListBytes(e) <= |img|
  {
    if e.Entry? { StoredFits(img, own, dirOff, e.next, off + EntryBytes(e)); }
  }

  lemma EntryRead(img: seq<Byte>, own: seq<int>, dirOff: seq<int>, e: Entry, off: int)
    requires EntryAt(img, own, dirOff, e, off) && FineHere(e)
    ensures Word(img, off + 8) % 64 * 4 == Pad4(|e.name|)
    ensures Stripped(img[off + INODE_SIZE..off + INODE_SIZE + Pad4(|e.name|)]) == e.name
    ensures Half(img, off) == e.mode % 0x1_0000 && Half(img, off + 2) == e.uid % 0x1_0000
    ensures img[off + 7] == e.gid % 0x100 && Third(img, off + 4) == e.size % SIZE_LIMIT && dirOff[e.id] == off
  {
    HeadRead(img, off, e);
    StrippedPadded(e.name, Pad4(|e.name|) - |e.name|);
  }

  // ----- the image builder

  /** The bytes parse_directory reserves below an entry: its directories and the contents of its files. */
  function Reserved(e: Entry, blk: nat): nat
    requires blk > 0
  {
    if e.Null? then 0
    else
      EntryBytes(e) + (if e.data != [] then DataBound(|e.data|, blk) else 0)
      + Reserved(e.child, blk) + Reserved(e.next, blk)
  }

  /** What parse_directory reserves is what is needed at most, except for links without contents. */
  lemma {:induction false} ReservedEnough(e: Entry, blk: nat)
    requires blk > 0
    ensures Reserved(e, blk) <= TreeBytes(e) + Space(Nodes(e), blk)
    ensures Hollow(Nodes(e)) <==> Reserved(e, blk) < TreeBytes(e) + Space(Nodes(e), blk)
  {
    hide Hollow, TreeBytes, Nodes, Space, DataBound, Reserved;
    if e.Entry? {
      ReservedEnough(e.child, blk);
      ReservedEnough(e.next, blk);
      NodesAre(e);
      HollowParts(e, Nodes(e.child), Nodes(e.next));
      SpaceParts(e, Nodes(e.child), Nodes(e.next), blk);
      TreeParts(e);
      ReservedParts(e, blk);
      BoundPositive(blk);
    } else {
      NothingReserved(blk);
    }
  }

  lemma NothingReserved(blk: nat)
    requires blk > 0
    ensures Reserved(Null, blk) == 0 == TreeBytes(Null) == Space(Nodes(Null), blk) && !Hollow(Nodes(Null))
  {}

  lemma BoundPositive(blk: nat)
    requires blk > 0
    ensures DataBound(0, blk) > 0
  {}

  lemma ReservedParts(e: Entry, blk: nat)
    requires e.Entry? && blk > 0
    ensures Reserved(e, blk) == EntryBytes(e) + (if e.data != [] then DataBound(|e.data|, blk)
            else 0) + Reserved(e.child, blk) + Reserved(e.next, blk)
  {}

  lemma SpaceParts(e: Entry, a: seq<Entry>, b: seq<Entry>, blk: nat)
    requires e.Entry? && blk > 0
    ensures Space([e] + a + b, blk) == (if HasData(e) then DataBound(|e.data|, blk)
            else 0) + Space(a, blk) + Space(b, blk)
  {
    SpaceSum([e] + a, b, blk);
    SpaceStep([e] + a, blk);
    assert ([e] + a)[1..] == a;
  }

  lemma TreeParts(e: Entry)
    requires e.Entry?
    ensures TreeBytes(e) == EntryBytes(e) + TreeBytes(e.child) + TreeBytes(e.next)
  {
    hide PreDirs, DirBytes;
    DirsParts(e);
    NoDirs();
    NoDirBytes();
    if e.child.Entry? {
      DirBytesSum([e] + PreDirs(e.child), PreDirs(e.next));
      DirBytesSum([e], PreDirs(e.child));
      OneDir(e);
    }
  }

  lemma NoDirBytes()
    ensures DirBytes([]) == 0
  {}

  /** The directories have been written and no contents yet. */
  lemma DataStarts(img: seq<Byte>, own: seq<int>, dirOff: seq<int>, offs: seq<int>, same: seq<int>, codec: Codec,
                   blk: nat, root: Entry, off0: int, dirEnd: int)
    requires blk > 0 && IsRoot(root) && Separate(root) && LinksMade(same, root) && Fine(root.child)
    requires |img| == |own| && 0 <= dirEnd <= |img| && Stored(img, own, dirOff, root.child, off0, {})
             && Owners(own, Ids(root.child), dirEnd)
    requires |offs| == |dirOff| == |same| && dirEnd % 4 == 0
    ensures Before(img, own, dirOff, offs, same, codec, blk, root, off0, dirEnd, 0, dirEnd) && Upcoming(root, 0, root)
  {
    hide Stored, Owners, LinksMade;
    assert Nodes(root)[..0] == [] && Nodes(root)[0..|Nodes(root)|] == Nodes(root);
  }

  /** Every block of the file is there, packed as asked, and holes are where they were asked for. */
  ghost predicate PackedAt(img: seq<Byte>, dirOff: seq<int>, codec: Codec, blk: nat, n: Entry)
    requires blk > 0
  {
    && n.Entry? && n.id < |dirOff| && 0 <= dirOff[n.id] && dirOff[n.id] + INODE_SIZE <= |img|
    && FileAt(img, codec, blk, OffsetAt(img, dirOff[n.id]), n.data, |img|)
    && HolesAsAsked(img, codec, blk, OffsetAt(img, dirOff[n.id]), n.data)
  }

  ghost predicate AllPacked(img: seq<Byte>, dirOff: seq<int>, codec: Codec, blk: nat, e: Entry)
    requires blk > 0
  {
    forall n :: n in Nodes(e) && n.Entry? && HasData(n) ==> PackedAt(img, dirOff, codec, blk, n)
  }

  lemma FileLater(img: seq<Byte>, codec: Codec, blk: nat, o: int, data: seq<Byte>, end: int, end': int)
    requires blk > 0 && FileAt(img, codec, blk, o, data, end) && end <= end' <= |img|
    ensures FileAt(img, codec, blk, o, data, end')
  {
    forall i: nat | i < Blocks(|data|, blk)
      ensures BlockAt(img, codec, blk, o, data, Blocks(|data|, blk), i, end')
    {
      assert BlockAt(img, codec, blk, o, data, Blocks(|data|, blk), i, end);
    }
  }

  /** All contents are in place. */
  lemma AllReadable(img: seq<Byte>, own: seq<int>, dirOff: seq<int>, offs: seq<int>, same: seq<int>, codec: Codec,
                    blk: nat, root: Entry, off0: int, dirEnd: int, cur: int)
    requires Before(img, own, dirOff, offs, same, codec, blk, root, off0, dirEnd, |Nodes(root)|, cur) && Inverse(codec)
    ensures AllPacked(img, dirOff, codec, blk, root.child)
    ensures Readable(img, dirOff, codec, blk, root.child) && Stored(img, own, dirOff, root.child, off0, {})
            && Fine(root.child)
    ensures dirEnd <= cur
  {
    hide Stored, Owners, LinksMade, BlockAt, Word, ReadBlocks, Inverse, HolesAsAsked;
    forall n | n in Nodes(root.child) && n.Entry? && HasData(n)
      ensures n.id < |dirOff| && 0 <= dirOff[n.id] && dirOff[n.id] + INODE_SIZE <= |img|
              && ReadFile(img, codec, blk, OffsetAt(img, dirOff[n.id]), |n.data|) == Some(n.data)
      ensures PackedAt(img, dirOff, codec, blk, n)
    {
      assert n in Nodes(root);
      var k :| 0 <= k < |Nodes(root)| && Nodes(root)[k] == n;
      assert Nodes(root)[..|Nodes(root)|][k] == n;
      assert DataAt(img, dirOff, offs, codec, blk, n, dirEnd, cur);
      var end: int :| end <= cur && FileAt(img, codec, blk, offs[n.id], n.data, end);
      Reads(img, codec, blk, offs[n.id], n.data, end);
      HolesExactly(img, codec, blk, offs[n.id], n.data, end);
      FileLater(img, codec, blk, offs[n.id], n.data, end, |img|);
    }
  }

  /** What parse_directory reserves is enough for the directories and the contents, unless there is a link without
      contents, whose pointers alone take more. */
  lemma ReservingEnough(root: Entry, codec: Codec, blk: nat)
    requires blk > 0 && IsRoot(root) && Fine(root.child) && Inverse(codec)
    ensures !Hollow(Nodes(root))
            ==> TreeBytes(root.child) + DataBytes(codec, blk, root, Nodes(root)) <= Reserved(root.child, blk)
    ensures Hollow(Nodes(root)) ==> DataBytes(codec, blk, root, Nodes(root)) >= 4 * Pointers(0, blk)
  {
    hide TreeBytes, Space, Nodes, Reserved, Hollow, DataBytes, Fine, Inverse, Pointers;
    ReservedEnough(root.child, blk);
    HollowParts(root, Nodes(root.child), []);
    assert [root] + Nodes(root.child) + [] == [root] + Nodes(root.child);
    RootNodes(root);
    RootSpace(root, Nodes(root.child), blk);
    forall i | 0 <= i < |Nodes(root)| && Nodes(root)[i].Entry? && HasData(Nodes(root)[i])
      ensures |Nodes(root)[i].data| < WORD
    {
      NodeInTree(root, i);
      RootHasNone(root);
      FineNode(root.child, Nodes(root)[i]);
      FineWord(Nodes(root)[i]);
    }
    DataBounds(codec, blk, root, Nodes(root));
  }

  lemma RootHasNone(root: Entry)
    requires IsRoot(root)
    ensures !HasData(root)
  {}

  lemma FineWord(n: Entry)
    requires n.Entry? && FineHere(n)
    ensures HasData(n) ==> |n.data| < WORD
  {}

  lemma RootIs(root: Entry)
    requires IsRoot(root)
    ensures TreeBytes(root.child) % 4 == 0 && ListBytes(root.child) <= TreeBytes(root.child) && |Nodes(root)| >= 1
    ensures Separate(root) ==> Separate(root.child) && Ids(root.child) <= Ids(root)
  {
    hide TreeBytes, Nodes, Separate, Ids;
    RootNodes(root);
    TreeWords(root.child);
    RootApart(root);
  }

  lemma RootNodes(root: Entry)
    requires root.Entry? && root.next.Null?
    ensures Nodes(root) == [root] + Nodes(root.child) && Nodes(root)[0..] == Nodes(root)
            && Nodes(root)[|Nodes(root)|..] == []
  {}

  lemma RootSpace(root: Entry, rest: seq<Entry>, blk: nat)
    requires blk > 0 && root.Entry? && !HasData(root)
    ensures Space([root] + rest, blk) == Space(rest, blk)
  {
    assert ([root] + rest)[1..] == rest;
  }

  lemma TreeWords(e: Entry)
    ensures TreeBytes(e) % 4 == 0 && ListBytes(e) <= TreeBytes(e)
  {
    hide ListBytes, DirBytes;
  }

  lemma RootApart(root: Entry)
    requires root.Entry?
    ensures Separate(root) ==> Separate(root.child) && Ids(root.child) <= Ids(root)
  {}

  lemma LinksAll(same: seq<int>, root: Entry)
    requires forall i :: i in Ids(root) ==> i < |same|
    requires forall n :: n in Nodes(root) && n.Entry? && n.id < |same| ==> same[n.id] == SameAs(root, n)
    ensures LinksMade(same, root)
  {
    forall n | n in Nodes(root) && n.Entry? ensures n.id < |same| { NodeId(root, n); }
  }

  /** Everything main does between parse_directory and the superblock: duplicates are linked, directories and
      contents are written. They end where the bytes of all of them do, and reading the image gives the tree
      back, unless a directory is too large for the size in its inode. */
  method BuildImage(root: Entry, codec: Codec, blk: nat, size: nat, count: nat, offset0: int)
    returns (r: Result<int>, rom: RomImage)
    requires IsRoot(root) && Separate(root) && Fine(root.child) && Inverse(codec) && blk >= 26
    requires (forall i :: i in Ids(root) ==> i < count) && 0 <= offset0 <= size < WORD && offset0 % 4 == 0
    ensures var end := offset0 + TreeBytes(root.child) + DataBytes(codec, blk, root, Nodes(root));
            if r.Success? then r.value == end <= size
            else if r.error == NotEnoughSpace then end > size
            else r.error == FilesystemTooBig && end >= OFFSET_LIMIT && size >= OFFSET_LIMIT
    ensures rom.base.Length == size
    ensures r.Success? ==> AllPacked(rom.base[..], rom.dirOffset[..], codec, blk, root.child)
    ensures r.Success? ==> forall p :: 0 <= p < offset0 && p < rom.base.Length ==> rom.base[p] == 0
    ensures r.Success? && Sized(root.child) ==>
              ReadDir(rom.base[..], codec, blk, offset0, ListBytes(root.child), |Nodes(root.child)|)
                  == Some(Reflect(root.child))
  {
    hide Stored, Owners, Opened, Before, LinksMade, Readable, ReadDir, Inverse, TreeBytes, DataBytes, Fine, Sized,
         Upcoming, PreDirs, Reflect, ListBytes, DirBytes, SameAs, AllPacked, KeptTo, FreeKept, Nodes, Separate;
    rom := new RomImage(size, count);
    EliminateDoubles(rom, root, root);
    LinksAll(rom.same[..], root);
    RootIs(root);
    ghost var own0, img0 := rom.own, rom.base[..];
    var dirs := rom.WriteDirectoryStructure(root.child, offset0);
    if dirs.Failure? { return Failure(dirs.error), rom; }
    var dirEnd := dirs.value;
    ghost var img1 := rom.base[..];
    DataStarts(rom.base[..], rom.own, rom.dirOffset[..], rom.offset[..], rom.same[..], codec, blk,
        root, offset0, dirEnd);
    var data := WriteData(rom, codec, blk, root, dirEnd, root, offset0, dirEnd, 0);
    if data.Failure? { return Failure(data.error), rom; }
    StillZero(img0, img1, rom.base[..], own0, rom.own, offset0, dirEnd);
    AllReadable(rom.base[..], rom.own, rom.dirOffset[..], rom.offset[..], rom.same[..], codec,
        blk, root, offset0, dirEnd, data.value);
    if Sized(root.child) {
      ReadsBack(rom.base[..], rom.own, rom.dirOffset[..], codec, blk, root.child, offset0, |Nodes(root.child)|);
    }
    return Success(data.value), rom;
  }

  /** Nothing is written in front of the directories. */
  lemma StillZero(img0: seq<Byte>, img1: seq<Byte>, img2: seq<Byte>, own0: seq<int>, own1: seq<int>, k: int,
                  dirEnd: int)
    requires KeptTo(img0, img1, own0, own1, k) && FreeKept(img1, img2, own1, dirEnd) && k <= dirEnd
    requires (forall p :: 0 <= p < |own0| ==> own0[p] == FREE) && (forall p :: 0 <= p < |img0| ==> img0[p] == 0)
    ensures forall p :: 0 <= p < k && p < |img2| ==> img2[p] == 0
  {}
}
