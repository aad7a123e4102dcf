/** File contents in a cramfs image (pkg/cramfs/mkcramfs.c: is_zero, do_compress, find_identical_file,
    eliminate_doubles, write_data) and a reader for the whole image. */
module CramData {
  import opened Results
  import opened CramLayout
  import opened CramImage

  datatype Option<T> = None | Some(value: T)

  // ----- holes

  /** is_zero: the first four bytes, then every byte against the one four places before it. */
  predicate IsZero(s: seq<Byte>) {
    |s| == 0 || (s[0] == 0
        && (|s| == 1 || (s[1] == 0
        && (|s| == 2 || (s[2] == 0 && (|s| == 3 || (s[3] == 0 && s[..|s| - 4] == s[4..])))))))
  }

  lemma {:induction false} ZeroFrom(s: seq<Byte>, i: nat)
    requires IsZero(s) && i < |s|
    ensures s[i] == 0
  {
    if i >= 4 {
      assert s[4..][i - 4] == s[..|s| - 4][i - 4];
      ZeroFrom(s, i - 4);
    }
  }

  lemma IsZeroMeans(s: seq<Byte>)
    ensures IsZero(s) <==> s == Zeros(|s|)
  {
    if IsZero(s) { forall i | 0 <= i < |s| ensures s[i] == 0 { ZeroFrom(s, i); } }
  }

  ghost predicate AllZero(s: seq<Byte>) {
    forall i :: 0 <= i < |s| ==> s[i] == 0
  }

  lemma ZerosMean(s: seq<Byte>)
    ensures s == Zeros(|s|) <==> AllZero(s)
  {}

  // ----- blocks

  /** The compressor, what the kernel undoes it with, and whether blocks of zeros are left out. */
  datatype Codec = Codec(compress: seq<Byte> -> seq<Byte>, expand: seq<Byte> -> seq<Byte>, holes: bool)

  /** Expanding undoes compressing, a block does not vanish, and it grows by 26 bytes at most. */
  ghost predicate Inverse(codec: Codec) {
    forall x: seq<Byte> :: Undone(codec, x)
  }

  ghost predicate Undone(codec: Codec, x: seq<Byte>) {
    |codec.compress(x)| <= |x| + 26 && (x != [] ==> codec.expand(codec.compress(x)) == x && codec.compress(x) != [])
  }

  function Blocks(size: nat, blk: nat): nat
    requires blk > 0
  {
    if size == 0 then 0 else (size - 1) / blk + 1
  }

  /** The part of data that block i holds. */
  function Chunk(data: seq<Byte>, blk: nat, i: nat): seq<Byte> {
    if i * blk <= |data| then data[i * blk..if (i + 1) * blk <= |data| then (i + 1) * blk else |data|] else []
  }

  /** Where block i of a file at o starts: behind the pointers, or where the pointer before its own leads. */
  function BlockStart(img: seq<Byte>, o: int, blocks: int, i: int): int
    requires 0 <= i <= blocks && 0 <= o && o + 4 * blocks <= |img|
  {
    if i == 0 then o + 4 * blocks else Word(img, o + 4 * (i - 1))
  }

  /** Block i of data is in place, before end. */
  ghost predicate BlockAt(img: seq<Byte>, codec: Codec, blk: nat, o: int, data: seq<Byte>, blocks: int, i: nat,
                          end: int) {
    && i < blocks && 0 <= o && o + 4 * blocks <= |img|
    && var start, stop := BlockStart(img, o, blocks, i), Word(img, o + 4 * i);
       && o + 4 * blocks <= start <= stop <= end <= |img|
       && img[start..stop] == Packed(codec, Chunk(data, blk, i))
  }

  /** The bytes that stand for a block. */
  ghost function Packed(codec: Codec, chunk: seq<Byte>): seq<Byte> {
    if codec.holes && AllZero(chunk) then [] else codec.compress(chunk)
  }

  lemma PackedMeans(codec: Codec, chunk: seq<Byte>)
    requires Inverse(codec) && chunk != []
    ensures Packed(codec, chunk) == [] <==> codec.holes && AllZero(chunk)
    ensures if Packed(codec, chunk) == [] then chunk == Zeros(|chunk|)
            else codec.expand(Packed(codec, chunk)) == chunk
  {
    assert Undone(codec, chunk);
  }

  /** Block i has no bytes exactly if holes were asked for, and every byte of it is 0. */
  ghost predicate HoleAsAsked(img: seq<Byte>, codec: Codec, blk: nat, o: int, data: seq<Byte>, blocks: int, i: nat)
    requires i < blocks && 0 <= o && o + 4 * blocks <= |img|
  {
    BlockStart(img, o, blocks, i) == Word(img, o + 4 * i) <==> codec.holes && AllZero(Chunk(data, blk, i))
  }

  lemma HoleExactly(img: seq<Byte>, codec: Codec, blk: nat, o: int, data: seq<Byte>, i: nat, end: int)
    requires blk > 0 && Inverse(codec) && i < Blocks(|data|, blk)
             && BlockAt(img, codec, blk, o, data, Blocks(|data|, blk), i, end)
    ensures HoleAsAsked(img, codec, blk, o, data, Blocks(|data|, blk), i)
  {
    hide Inverse, Packed, Word, Chunk, AllZero;
    ChunkSize(data, blk, i);
    PackedMeans(codec, Chunk(data, blk, i));
  }

  /** The holes of a file are those asked for. */
  ghost predicate HolesAsAsked(img: seq<Byte>, codec: Codec, blk: nat, o: int, data: seq<Byte>)
    requires blk > 0 && 0 <= o && o + 4 * Blocks(|data|, blk) <= |img|
  {
    forall i: nat :: i < Blocks(|data|, blk) ==> HoleAsAsked(img, codec, blk, o, data, Blocks(|data|, blk), i)
  }

  lemma HolesExactly(img: seq<Byte>, codec: Codec, blk: nat, o: int, data: seq<Byte>, end: int)
    requires blk > 0 && Inverse(codec) && FileAt(img, codec, blk, o, data, end)
    ensures HolesAsAsked(img, codec, blk, o, data)
  {
    hide BlockAt, HoleAsAsked, Inverse;
    forall i: nat | i < Blocks(|data|, blk) ensures HoleAsAsked(img, codec, blk, o, data, Blocks(|data|, blk), i) {
      assert BlockAt(img, codec, blk, o, data, Blocks(|data|, blk), i, end);
      HoleExactly(img, codec, blk, o, data, i, end);
    }
  }

  lemma BlockKept(img: seq<Byte>, img': seq<Byte>, codec: Codec, blk: nat, o: int, data: seq<Byte>, blocks: int, i: nat,
                  end: int, end': int)
    requires BlockAt(img, codec, blk, o, data, blocks, i, end) && |img'| == |img| && end <= end' <= |img|
    requires forall p :: o <= p < o + 4 * (i + 1) || o + 4 * blocks <= p < end ==> img'[p] == img[p]
    ensures BlockAt(img', codec, blk, o, data, blocks, i, end')
  {
    var start, stop := BlockStart(img, o, blocks, i), Word(img, o + 4 * i);
    WordAgrees(img, img', o + 4 * i);
    if i > 0 { WordAgrees(img, img', o + 4 * (i - 1)); }
    assert img'[start..stop] == img[start..stop];
  }

  /** The file at o, with all its blocks before end, has this data. */
  ghost predicate FileAt(img: seq<Byte>, codec: Codec, blk: nat, o: int, data: seq<Byte>, end: int)
    requires blk > 0
  {
    && 0 <= o && o + 4 * Blocks(|data|, blk) <= end <= |img|
    && forall i: nat :: i < Blocks(|data|, blk) ==> BlockAt(img, codec, blk, o, data, Blocks(|data|, blk), i, end)
  }

  lemma FileKept(img: seq<Byte>, img': seq<Byte>, codec: Codec, blk: nat, o: int, data: seq<Byte>, end: int)
    requires blk > 0 && FileAt(img, codec, blk, o, data, end) && |img'| == |img|
             && forall p :: o <= p < end ==> img'[p] == img[p]
    ensures FileAt(img', codec, blk, o, data, end)
  {
    var blocks := Blocks(|data|, blk);
    forall i: nat | i < blocks ensures BlockAt(img', codec, blk, o, data, blocks, i, end) {
      assert BlockAt(img, codec, blk, o, data, blocks, i, end);
      BlockKept(img, img', codec, blk, o, data, blocks, i, end, end);
    }
  }

  // ----- the reader

  /** The blocks from the i-th on, as the kernel reads them: a block of no bytes is a hole. */
  function ReadBlocks(img: seq<Byte>, codec: Codec, blk: nat, o: int, blocks: int, i: nat, size: nat): Option<seq<Byte>>
    requires blk > 0
    decreases size
  {
    if size == 0 then Some([])
    else if !(i < blocks && 0 <= o && o + 4 * blocks <= |img|) then None
    else
      var n := if size < blk then size else blk;
      var start, stop := BlockStart(img, o, blocks, i), Word(img, o + 4 * i);
      if !(0 <= start <= stop <= |img|) then None
      else
        var chunk := if start == stop then Zeros(n) else codec.expand(img[start..stop]);
        var rest := ReadBlocks(img, codec, blk, o, blocks, i + 1, size - n);
        if |chunk| != n || rest.None? then None else Some(chunk + rest.value)
  }

  function ReadFile(img: seq<Byte>, codec: Codec, blk: nat, o: int, size: nat): Option<seq<Byte>>
    requires blk > 0
  {
    ReadBlocks(img, codec, blk, o, Blocks(size, blk), 0, size)
  }

  lemma ChunkSize(data: seq<Byte>, blk: nat, i: nat)
    requires blk > 0 && i < Blocks(|data|, blk)
    ensures 0 <= i * blk < |data| && |Chunk(data, blk, i)| == (if |data| - i * blk < blk then |data| - i * blk else blk)
    ensures (i + 1) * blk == i * blk + blk
    ensures data[i * blk..] == Chunk(data, blk, i) + data[i * blk + |Chunk(data, blk, i)|..]
    ensures i + 1 == Blocks(|data|, blk) <==> |data| <= (i + 1) * blk
  {
    Multiple(|data| - 1, blk, i);
    assert (i + 1) * blk == i * blk + blk;
  }

  lemma Multiple(n: nat, blk: nat, i: nat)
    requires blk > 0 && i <= n / blk
    ensures i * blk <= n && (i == n / blk <==> n < i * blk + blk)
  {
    var q, r := n / blk, n % blk;
    assert n == q * blk + r;
    assert (q - i) * blk == q * blk - i * blk;
    if q - i >= 1 {
      assert (q - i) * blk == blk + (q - i - 1) * blk; assert (q - i - 1) * blk >= 0;
    } else {
      assert q == i;
    }
  }

  /** One block is read back when those behind it are. */
  lemma ReadStep(img: seq<Byte>, codec: Codec, blk: nat, o: int, data: seq<Byte>, end: int, i: nat, chunk: seq<Byte>,
                 rest: seq<Byte>)
    requires Inverse(codec) && blk > 0 && i < Blocks(|data|, blk)
             && BlockAt(img, codec, blk, o, data, Blocks(|data|, blk), i, end)
             && chunk == Chunk(data, blk, i)
    requires 0 < |chunk + rest| && |chunk| == (if |chunk + rest| < blk then |chunk + rest| else blk)
    requires ReadBlocks(img, codec, blk, o, Blocks(|data|, blk), i + 1, |rest|) == Some(rest)
    ensures ReadBlocks(img, codec, blk, o, Blocks(|data|, blk), i, |chunk + rest|) == Some(chunk + rest)
  {
    hide Word, Chunk, Blocks, Inverse, Packed;
    PackedMeans(codec, chunk);
    assert |chunk + rest| - |chunk| == |rest|;
  }

  lemma ReadNone(img: seq<Byte>, codec: Codec, blk: nat, o: int, blocks: int, i: nat)
    requires blk > 0
    ensures ReadBlocks(img, codec, blk, o, blocks, i, 0) == Some([])
  {}

  lemma {:induction false} ReadsBlocks(img: seq<Byte>, codec: Codec, blk: nat, o: int, data: seq<Byte>, end: int,
                                       i: nat)
    requires Inverse(codec) && blk > 0 && FileAt(img, codec, blk, o, data, end) && i <= Blocks(|data|, blk)
             && (i < Blocks(|data|, blk) || i * blk >= |data|)
    ensures var size := if i * blk <= |data| then |data| - i * blk else 0;
            ReadBlocks(img, codec, blk, o, Blocks(|data|, blk), i, size) == Some(data[|data| - size..])
    decreases Blocks(|data|, blk) - i
  {
    hide ReadBlocks, BlockAt, Chunk, Word, Inverse;
    if i < Blocks(|data|, blk) {
      ChunkSize(data, blk, i);
      assert BlockAt(img, codec, blk, o, data, Blocks(|data|, blk), i, end);
      var chunk, at := Chunk(data, blk, i), i * blk;
      var rest := data[at + |chunk|..];
      ReadsBlocks(img, codec, blk, o, data, end, i + 1);
      assert data[at..] == chunk + rest && |rest| == |data| - at - |chunk|;
      ReadStep(img, codec, blk, o, data, end, i, chunk, rest);
    } else {
      ReadNone(img, codec, blk, o, Blocks(|data|, blk), i);
      assert data[|data|..] == [];
    }
  }

  /** A file in place is read back. */
  lemma Reads(img: seq<Byte>, codec: Codec, blk: nat, o: int, data: seq<Byte>, end: int)
    requires Inverse(codec) && blk > 0 && FileAt(img, codec, blk, o, data, end)
    ensures ReadFile(img, codec, blk, o, |data|) == Some(data)
  {
    ReadsBlocks(img, codec, blk, o, data, end, 0);
    assert data[0..] == data;
  }

  // ----- do_compress

  /** The number of block pointers, in unsigned words of 32 bits: an empty file is taken for one of 2^32 bytes. */
  function Pointers(size: nat, blk: nat): nat
    requires blk > 0
  {
    (size - 1) % WORD / blk + 1
  }

  lemma PointersAre(size: nat, blk: nat)
    requires blk > 0
    ensures 0 < size <= WORD ==> Pointers(size, blk) == Blocks(size, blk)
    ensures size == 0 ==> Pointers(size, blk) == (WORD - 1) / blk + 1
  {}

  /** What the contents of a file take at most: block pointers and growth, the data, and padding. */
  function DataBound(size: nat, blk: nat): nat
    requires blk > 0
  {
    (4 + 26) * Pointers(size, blk) + size + 3
  }

  /** The bytes of the blocks below i. */
  ghost function PackedBytes(codec: Codec, blk: nat, data: seq<Byte>, i: nat): nat {
    if i == 0 then 0 else PackedBytes(codec, blk, data, i - 1) + |Packed(codec, Chunk(data, blk, i - 1))|
  }

  /** What the contents of a file take: block pointers, blocks and padding. An empty file has one block. */
  ghost function Stretch(codec: Codec, blk: nat, data: seq<Byte>): (n: nat)
    requires blk > 0
    ensures n % 4 == 0
  {
    Pad4(4 * Pointers(|data|, blk) + PackedBytes(codec, blk, data, if data == [] then 1 else Blocks(|data|, blk)))
  }

  lemma {:induction false} PackedSum(codec: Codec, blk: nat, data: seq<Byte>, i: nat, j: nat)
    requires i <= j
    ensures PackedBytes(codec, blk, data, i) <= PackedBytes(codec, blk, data, j)
  {
    if i < j { PackedSum(codec, blk, data, i, j - 1); }
  }

  /** Blocks grow by 26 bytes at most. */
  lemma {:induction false} PackedBound(codec: Codec, blk: nat, data: seq<Byte>, i: nat)
    requires Inverse(codec) && blk > 0 && i <= Blocks(|data|, blk)
    ensures PackedBytes(codec, blk, data, i) <= (if i < Blocks(|data|, blk) then i * blk else |data|) + 26 * i
  {
    hide Inverse, Chunk, Blocks;
    if i > 0 {
      PackedBound(codec, blk, data, i - 1);
      ChunkSize(data, blk, i - 1);
      ChunkUndone(codec, Chunk(data, blk, i - 1));
    } else if |data| > 0 {
      NoBlock(blk);
    }
  }

  lemma NoBlock(blk: nat)
    ensures 0 * blk == 0
  {}

  lemma StretchBound(codec: Codec, blk: nat, data: seq<Byte>)
    requires Inverse(codec) && blk > 0 && |data| < WORD
    ensures 4 * Pointers(|data|, blk) <= Stretch(codec, blk, data) <= DataBound(|data|, blk)
  {
    hide Inverse, Chunk, Pointers, Packed, Blocks;
    PointersAre(|data|, blk);
    if data == [] {
      OneBlock(codec, blk);
      ChunkUndone(codec, []);
      PackedIs(codec, []);
    } else {
      PackedBound(codec, blk, data, Blocks(|data|, blk));
    }
  }

  lemma EmptyChunk(blk: nat)
    ensures Chunk([], blk, 0) == []
  {}

  lemma PackedIs(codec: Codec, chunk: seq<Byte>)
    ensures Packed(codec, chunk) == [] || Packed(codec, chunk) == codec.compress(chunk)
  {}

  /** The blocks below i are in place, and the next one starts at curr. */
  ghost predicate Filled(img: seq<Byte>, codec: Codec, blk: nat, o: int, data: seq<Byte>, blocks: int, i: nat,
                         curr: int) {
    && i <= blocks && 0 <= o && o + 4 * blocks <= curr <= |img| && curr == BlockStart(img, o, blocks, i)
    && forall j: nat :: j < i ==> BlockAt(img, codec, blk, o, data, blocks, j, curr)
  }

  /** One more block. */
  lemma FilledMore(img: seq<Byte>, img': seq<Byte>, codec: Codec, blk: nat, o: int, data: seq<Byte>, blocks: int,
                   i: nat, curr: int, curr': int)
    requires Filled(img, codec, blk, o, data, blocks, i, curr) && i < blocks && |img'| == |img|
             && curr <= curr' <= |img|
    requires Word(img', o + 4 * i) == curr'
    requires forall p :: 0 <= p < curr && !(o + 4 * i <= p < o + 4 * i + 4) ==> img'[p] == img[p]
    requires img'[curr..curr'] == Packed(codec, Chunk(data, blk, i))
    ensures Filled(img', codec, blk, o, data, blocks, i + 1, curr')
  {
    if i > 0 { WordAgrees(img, img', o + 4 * (i - 1)); }
    forall j: nat | j < i + 1 ensures BlockAt(img', codec, blk, o, data, blocks, j, curr') {
      if j < i {
        assert BlockAt(img, codec, blk, o, data, blocks, j, curr);
        BlockKept(img, img', codec, blk, o, data, blocks, j, curr, curr');
      }
    }
  }

  lemma ChunkUndone(codec: Codec, x: seq<Byte>)
    requires Inverse(codec)
    ensures |codec.compress(x)| <= |x| + 26
            && (x != [] ==> codec.expand(codec.compress(x)) == x && codec.compress(x) != [])
  {
    assert Undone(codec, x);
  }

  /** One round of the loop of do_compress: block i, and the pointer to its end. It stops where it would run past
      the mapping. */
  method CompressBlock(rom: RomImage, codec: Codec, blk: nat, chunk: seq<Byte>, offset: int, curr0: int,
                       ghost o: int, ghost data: seq<Byte>, ghost blocks: int, ghost i: nat) returns (r: Result<int>)
    requires offset == o + 4 * i && Inverse(codec) && blk >= 26 && chunk == Chunk(data, blk, i)
             && 0 < |chunk| <= blk && i < blocks
    requires Filled(rom.base[..], codec, blk, o, data, blocks, i, curr0) && rom.base.Length < WORD
    modifies rom.base
    ensures r.Failure? ==> r.error == NotEnoughSpace && curr0 + |Packed(codec, chunk)| > rom.base.Length
    ensures r.Success? ==> r.value == curr0 + |Packed(codec, chunk)|
                           && Filled(rom.base[..], codec, blk, o, data, blocks, i + 1, r.value)
    ensures forall p :: 0 <= p < o ==> rom.base[p] == old(rom.base[p])
  {
    hide Filled, Chunk, Inverse, Word, Le32, IsZero, AllZero;
    ghost var img := rom.base[..];
    FilledBounds(img, codec, blk, o, data, blocks, i, curr0);
    IsZeroMeans(chunk);
    ZerosMean(chunk);
    var curr := curr0;
    if !(codec.holes && IsZero(chunk)) {
      ChunkUndone(codec, chunk);
      var c := codec.compress(chunk);
      if |c| > 2 * blk { assert false; }
      if curr + |c| > rom.base.Length { return Failure(NotEnoughSpace); }
      rom.PutBytes(curr, c);
      curr := curr + |c|;
    }
    ghost var img1 := rom.base[..];
    rom.PutWord(offset, curr);
    assert rom.base[curr0..curr] == img1[curr0..curr];
    assert rom.base[..][curr0..curr] == rom.base[curr0..curr];
    FilledMore(img, rom.base[..], codec, blk, o, data, blocks, i, curr0, curr);
    return Success(curr);
  }

  /** The only round of the loop for an empty file. */
  method CompressNothing(rom: RomImage, codec: Codec, blk: nat, offset: int, curr0: int)
    returns (r: Result<int>)
    requires Inverse(codec) && blk >= 13 && 0 <= offset && offset + 4 <= curr0 <= rom.base.Length < WORD
    modifies rom.base
    ensures r.Failure? ==> r.error == NotEnoughSpace && curr0 + |Packed(codec, [])| > rom.base.Length
    ensures r.Success? ==> r.value == curr0 + |Packed(codec, [])| <= rom.base.Length
    ensures r.Success? ==> Word(rom.base[..], offset) == r.value && rom.base[curr0..r.value] == Packed(codec, [])
    ensures forall p :: 0 <= p < offset ==> rom.base[p] == old(rom.base[p])
  {
    hide Inverse, Word, Le32, IsZero;
    IsZeroMeans([]);
    ZerosMean([]);
    var curr := curr0;
    if !(codec.holes && IsZero([])) {
      ChunkUndone(codec, []);
      var c := codec.compress([]);
      if |c| > 2 * blk { assert false; }
      if curr + |c| > rom.base.Length { return Failure(NotEnoughSpace); }
      rom.PutBytes(curr, c);
      curr := curr + |c|;
    }
    ghost var img1 := rom.base[..];
    rom.PutWord(offset, curr);
    assert rom.base[curr0..curr] == img1[curr0..curr];
    return Success(curr);
  }

  lemma FilledBounds(img: seq<Byte>, codec: Codec, blk: nat, o: int, data: seq<Byte>, blocks: int, i: nat, curr: int)
    requires Filled(img, codec, blk, o, data, blocks, i, curr)
    ensures i <= blocks && 0 <= o && o + 4 * blocks <= curr <= |img|
  {}

  lemma FilledStart(img: seq<Byte>, codec: Codec, blk: nat, o: int, data: seq<Byte>, blocks: int)
    requires 0 <= blocks && 0 <= o && o + 4 * blocks <= |img|
    ensures Filled(img, codec, blk, o, data, blocks, 0, o + 4 * blocks)
  {}

  lemma FilledAll(img: seq<Byte>, codec: Codec, blk: nat, o: int, data: seq<Byte>, curr: int, end: int)
    requires blk > 0 && Filled(img, codec, blk, o, data, Blocks(|data|, blk), Blocks(|data|, blk), curr)
             && curr <= end <= |img|
    ensures FileAt(img, codec, blk, o, data, end)
  {
    var blocks := Blocks(|data|, blk);
    forall i: nat | i < blocks ensures BlockAt(img, codec, blk, o, data, blocks, i, end) {
      assert BlockAt(img, codec, blk, o, data, blocks, i, curr);
    }
  }

  /** The loop of do_compress for a file that is not empty. */
  method CompressBlocks(rom: RomImage, codec: Codec, blk: nat, offset0: int, data: seq<Byte>)
    returns (r: Result<int>)
    requires Inverse(codec) && blk >= 26 && data != [] && 0 <= offset0
             && offset0 + 4 * Blocks(|data|, blk) <= rom.base.Length < WORD
    modifies rom.base
    ensures var end := offset0 + 4 * Blocks(|data|, blk) + PackedBytes(codec, blk, data, Blocks(|data|, blk));
            if r.Failure? then r.error == NotEnoughSpace && end > rom.base.Length else r.value == end
    ensures r.Success?
            ==> Filled(rom.base[..], codec, blk, offset0, data, Blocks(|data|, blk), Blocks(|data|, blk), r.value)
    ensures forall p :: 0 <= p < offset0 ==> rom.base[p] == old(rom.base[p])
  {
    hide Filled, Chunk, Inverse, Packed;
    var blocks := (|data| - 1) / blk + 1;
    var offset, curr := offset0, offset0 + 4 * blocks;
    var size, uncompressed := |data|, 0;
    ghost var i: nat := 0;
    FilledStart(rom.base[..], codec, blk, offset0, data, blocks);
    while size != 0
      invariant 0 <= size && uncompressed == |data| - size && offset == offset0 + 4 * i && i <= blocks
      invariant if size == 0 then i == blocks else i < blocks && uncompressed == i * blk
      invariant Filled(rom.base[..], codec, blk, offset0, data, blocks, i, curr)
      invariant curr == offset0 + 4 * blocks + PackedBytes(codec, blk, data, i)
      invariant forall p :: 0 <= p < offset0 ==> rom.base[p] == old(rom.base[p])
      decreases size
    {
      ChunkSize(data, blk, i);
      var input := if size > blk then blk else size;
      size := size - input;
      ChunkIs(data, blk, i, uncompressed, input);
      var block := CompressBlock(rom, codec, blk, data[uncompressed..uncompressed + input],
          offset, curr, offset0, data, blocks, i);
      PackedSum(codec, blk, data, i + 1, blocks);
      if block.Failure? { return Failure(block.error); }
      curr := block.value;
      uncompressed := uncompressed + input;
      offset := offset + 4;
      i := i + 1;
    }
    return Success(curr);
  }

  /** The one block of an empty file, and the one pointer to its end. */
  ghost predicate EmptyAt(img: seq<Byte>, codec: Codec, blk: nat, o: int)
    requires blk > 0 && 0 <= o && o + 4 <= |img|
  {
    var start, stop := o + 4 * Pointers(0, blk), Word(img, o);
    start <= stop <= |img| && img[start..stop] == Packed(codec, [])
  }

  /** do_compress: pointers and blocks of a file from offset0 on; the result is where the next file can go. An empty
      file leaves room for the pointers of 2^32 bytes. */
  method DoCompress(rom: RomImage, codec: Codec, blk: nat, offset0: int, data: seq<Byte>)
    returns (r: Result<int>)
    requires Inverse(codec) && blk >= 26 && |data| < WORD && 0 <= offset0 && offset0 % 4 == 0 && rom.base.Length < WORD
    modifies rom.base
    ensures r.Failure? ==> r.error == NotEnoughSpace && offset0 + Stretch(codec, blk, data) > rom.base.Length
    ensures r.Success? ==> r.value == offset0 + Stretch(codec, blk, data) <= rom.base.Length
    ensures r.Success? && data == [] ==> offset0 + 4 <= rom.base.Length && EmptyAt(rom.base[..], codec, blk, offset0)
    ensures r.Success? ==> FileAt(rom.base[..], codec, blk, offset0, data, r.value)
                           && HolesAsAsked(rom.base[..], codec, blk, offset0, data)
    ensures forall p :: 0 <= p < offset0 && p < rom.base.Length ==> rom.base[p] == old(rom.base[p])
  {
    hide Filled, Chunk, Inverse, BlockAt, Pointers, HolesAsAsked, Packed, PackedBytes, Blocks;
    PointersAre(|data|, blk);
    hide Stretch, FileAt, DataBound;
    OneBlock(codec, blk);
    StretchEnd(codec, blk, data, offset0);
    var blocks := Pointers(|data|, blk);
    if offset0 + 4 * blocks > rom.base.Length { return Failure(NotEnoughSpace); }
    var written;
    if data == [] {
      written := CompressNothing(rom, codec, blk, offset0, offset0 + 4 * blocks);
    } else {
      written := CompressBlocks(rom, codec, blk, offset0, data);
    }
    if written.Failure? { return Failure(written.error); }
    var end := (written.value + 3) / 4 * 4;
    if end > rom.base.Length { return Failure(NotEnoughSpace); }
    if data == [] {
      NothingAt(rom.base[..], codec, blk, offset0, end);
    } else {
      FilledBounds(rom.base[..], codec, blk, offset0, data, blocks, blocks, written.value);
      FilledAll(rom.base[..], codec, blk, offset0, data, written.value, end);
    }
    HolesExactly(rom.base[..], codec, blk, offset0, data, end);
    return Success(end);
  }

  lemma StretchEnd(codec: Codec, blk: nat, data: seq<Byte>, offset: int)
    requires blk > 0 && 0 <= offset && offset % 4 == 0 && |data| < WORD
    ensures var last := offset + 4 * Pointers(|data|, blk)
                        + PackedBytes(codec, blk, data, if data == [] then 1 else Blocks(|data|, blk));
            (last + 3) / 4 * 4 == offset + Stretch(codec, blk, data) && last <= offset + Stretch(codec, blk, data)
    ensures 4 * Pointers(|data|, blk) <= Stretch(codec, blk, data)
    ensures data != [] ==> Pointers(|data|, blk) == Blocks(|data|, blk)
  {
    hide PackedBytes, Pointers, Blocks;
    PointersAre(|data|, blk);
  }

  lemma OneBlock(codec: Codec, blk: nat)
    ensures PackedBytes(codec, blk, [], 1) == |Packed(codec, [])|
  {
    EmptyChunk(blk);
    assert PackedBytes(codec, blk, [], 0) == 0;
  }

  lemma NothingAt(img: seq<Byte>, codec: Codec, blk: nat, o: int, end: int)
    requires blk > 0 && 0 <= o <= end <= |img|
    ensures FileAt(img, codec, blk, o, [], end)
  {}

  lemma ChunkIs(data: seq<Byte>, blk: nat, i: nat, at: int, input: int)
    requires blk > 0 && at == i * blk < |data| && input == (if |data| - at > blk then blk else |data| - at)
    ensures data[at..at + input] == Chunk(data, blk, i)
  {
    assert (i + 1) * blk == at + blk;
  }

  // ----- files with the same contents

  datatype Found = Nothing | Itself | Double(id: nat)

  /** The first entry in nodes that is n itself or has the same contents. */
  function Search(nodes: seq<Entry>, n: Entry): Found
    requires n.Entry?
  {
    if nodes == [] then Nothing
    else if nodes[0].Null? then Search(nodes[1..], n)
    else if nodes[0].id == n.id then Itself
    else if nodes[0].size == n.size && nodes[0].data != [] && nodes[0].data == n.data then Double(nodes[0].id)
    else Search(nodes[1..], n)
  }

  lemma {:induction false} SearchSum(a: seq<Entry>, b: seq<Entry>, n: Entry)
    requires n.Entry?
    ensures Search(a + b, n) == if Search(a, n).Nothing? then Search(b, n) else Search(a, n)
  {
    if a == [] {
      assert a + b == b;
    } else {
      assert (a + b)[1..] == a[1..] + b;
      SearchSum(a[1..], b, n);
    }
  }

  /** find_identical_file: the tree is searched in the order of Nodes, and newfile is linked to what is found. */
  method FindIdenticalFile(rom: RomImage, orig: Entry, newfile: Entry) returns (found: bool)
    requires newfile.Entry? && newfile.id < rom.same.Length
    modifies rom.same
    ensures var f := Search(Nodes(orig), newfile);
            found == !f.Nothing? && rom.same[..] == if f.Double? then old(rom.same[..])[newfile.id := f.id]
                else old(rom.same[..])
    decreases orig
  {
    if orig.Null? { return false; }
    ghost var here, inner, rest := [orig], Nodes(orig.child), Nodes(orig.next);
    SearchSum(here + inner, rest, newfile);
    SearchSum(here, inner, newfile);
    assert here[1..] == [];
    if orig.id == newfile.id { return true; }
    if orig.size == newfile.size && orig.data != [] {
      if orig.data == newfile.data {
        rom.same[newfile.id] := orig.id;
        return true;
      }
    }
    found := FindIdenticalFile(rom, orig.child, newfile);
    if !found { found := FindIdenticalFile(rom, orig.next, newfile); }
  }

  /** What eliminate_doubles stores for n. */
  ghost function SameAs(root: Entry, n: Entry): int
    requires n.Entry?
  {
    var f := Search(Nodes(root), n);
    if n.size != 0 && n.data != [] && f.Double? then f.id else FREE
  }

  /** eliminate_doubles for all entries from orig on. */
  method EliminateDoubles(rom: RomImage, root: Entry, orig: Entry)
    requires Separate(orig) && (forall i :: i in Ids(orig) ==> i < rom.same.Length && rom.same[i] == FREE)
    modifies rom.same
    ensures forall n :: n in Nodes(orig) && n.Entry? && n.id < rom.same.Length ==> rom.same[n.id] == SameAs(root, n)
    ensures forall i :: 0 <= i < rom.same.Length && i !in Ids(orig) ==> rom.same[i] == old(rom.same[i])
    decreases orig
  {
    if orig.Entry? {
      assert orig.id in Ids(orig);
      if orig.size != 0 && orig.data != [] {
        var _ := FindIdenticalFile(rom, root, orig);
      }
      ghost var same1 := rom.same[..];
      EliminateDoubles(rom, root, orig.child);
      ghost var same2 := rom.same[..];
      EliminateDoubles(rom, root, orig.next);
      forall n | n in Nodes(orig) && n.Entry? && n.id < rom.same.Length ensures rom.same[n.id] == SameAs(root, n) {
        if n in Nodes(orig.child) { NodeId(orig.child, n); } else if n in Nodes(orig.next) { NodeId(orig.next, n); }
      }
    }
  }

  /** What a search among all entries finds for the k-th one. */
  lemma {:induction false} SearchMeans(nodes: seq<Entry>, k: nat)
    requires k < |nodes| && (forall i :: 0 <= i < |nodes| ==> nodes[i].Entry?)
    requires forall i, j :: 0 <= i < j < |nodes| ==> nodes[i].id != nodes[j].id
    ensures var n := nodes[k];
            match Search(nodes, n)
            case Nothing => false
            case Itself => forall j :: 0 <= j < k ==> !SameContents(nodes[j], n)
            case Double(id) => exists j :: 0 <= j < k && nodes[j].id == id && SameContents(nodes[j], n)
                                           && forall i :: 0 <= i < j ==> !SameContents(nodes[i], n)
    decreases |nodes|
  {
    var n := nodes[k];
    if nodes[0].id == n.id {
      assert k == 0;
    } else if SameContents(nodes[0], n) {
      assert nodes[0].id == nodes[0].id;
    } else {
      var rest := nodes[1..];
      assert rest[k - 1] == n;
      SearchMeans(rest, k - 1);
      match Search(rest, n)
      case Double(id) =>
        var j :| 0 <= j < k - 1 && rest[j].id == id && SameContents(rest[j], n)
            && forall i :: 0 <= i < j ==> !SameContents(rest[i], n);
        assert nodes[j + 1] == rest[j];
        forall i | 0 <= i < j + 1
            ensures !SameContents(nodes[i], n) { if i > 0 { assert !SameContents(rest[i - 1], n); } }
      case Itself =>
        forall i | 0 <= i < k ensures !SameContents(nodes[i], n) { if i > 0 { assert !SameContents(rest[i - 1], n); } }
    }
  }

  predicate SameContents(m: Entry, n: Entry) {
    m.Entry? && n.Entry? && m.size == n.size && m.data != [] && m.data == n.data
  }

  lemma {:induction false} NodesApart(e: Entry, i: int, j: int)
    requires Separate(e) && 0 <= i < j < |Nodes(e)|
    ensures Nodes(e)[i].Entry? && Nodes(e)[j].Entry? && Nodes(e)[i].id != Nodes(e)[j].id
  {
    var a, b := [e] + Nodes(e.child), Nodes(e.next);
    assert Nodes(e) == a + b;
    if i >= |a| {
      NodesApart(e.next, i - |a|, j - |a|);
    } else {
      if i > 0 { NodeId(e.child, Nodes(e.child)[i - 1]); }
      if j >= |a| {
        NodeId(e.next, b[j - |a|]);
      } else {
        NodeId(e.child, Nodes(e.child)[j - 1]);
        if i > 0 { NodesApart(e.child, i - 1, j - 1); }
      }
    }
  }

  /** Every link leads to an earlier entry with the same contents that is not linked itself, and an entry is not
      linked exactly when no earlier one has its contents. */
  lemma LinksBack(root: Entry, k: nat)
    requires Separate(root) && k < |Nodes(root)| && Nodes(root)[k].Entry? && Nodes(root)[k].data != []
             && Nodes(root)[k].size != 0
    ensures var nodes := Nodes(root);
            var s := SameAs(root, nodes[k]);
            if s == FREE then forall j :: 0 <= j < k ==> !SameContents(nodes[j], nodes[k])
            else exists j :: 0 <= j < k && nodes[j].Entry? && nodes[j].id == s && SameContents(nodes[j], nodes[k])
                   && SameAs(root, nodes[j]) == FREE
  {
    var nodes := Nodes(root);
    forall i | 0 <= i < |nodes| ensures nodes[i].Entry? { NodeId(root, nodes[i]); }
    forall i, j | 0 <= i < j < |nodes| ensures nodes[i].id != nodes[j].id { NodesApart(root, i, j); }
    SearchMeans(nodes, k);
    match Search(nodes, nodes[k])
    case Double(id) =>
      var j :| 0 <= j < k && nodes[j].id == id && SameContents(nodes[j], nodes[k])
          && forall i :: 0 <= i < j ==> !SameContents(nodes[i], nodes[k]);
      SearchMeans(nodes, j);
      forall i | 0 <= i < j ensures !SameContents(nodes[i], nodes[j]) { assert !SameContents(nodes[i], nodes[k]); }
    case Itself =>
  }
}
