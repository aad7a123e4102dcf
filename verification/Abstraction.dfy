/** From characters to equivalence classes (ecs.c: ccl2ecl; main.c, after the rules have been read). */
module Abstraction {
  import opened Ecs
  import opened Ccl
  import opened Flexdef
  import opened Regex

  /** The class number of character ch. */
  function Ec(num: seq<int>, ch: int): int
    requires 0 <= ch < |num|
  {
    Abs(num[ch])
  }

  /** The numbers of the representatives among the members of a class. */
  function Compact(seg: seq<int>, num: seq<int>): seq<int> {
    if seg == [] then []
    else var k := |seg| - 1;
         Compact(seg[..k], num) + (if 0 <= seg[k] < |num| && num[seg[k]] > 0 then [num[seg[k]]] else [])
  }

  lemma {:induction false} InCompact(seg: seq<int>, num: seq<int>, e: int)
    ensures e in Compact(seg, num) <==> exists x :: x in seg && 0 <= x < |num| && num[x] == e && e > 0
  {
    if seg != [] {
      var k := |seg| - 1;
      InCompact(seg[..k], num, e);
      assert seg == seg[..k] + [seg[k]];
    }
  }

  ghost predicate CompactFrom(seg: seq<int>, num: seq<int>, e: int) {
    exists p :: 0 <= p < |seg| && 0 <= seg[p] < |num| && num[seg[p]] == e
  }

  /** Compacting an ascending class gives an ascending class. */
  lemma {:induction false} CompactAscends(seg: seq<int>, num: seq<int>, before: seq<int>, csize: nat, numecs: nat)
    requires Numbered(before, num, csize, numecs) && num[0] == num[csize] && 0 < csize
    requires ClassOk(Mapped(seg, csize), csize)
    ensures ClassOk(Compact(seg, num), numecs)
    ensures forall q :: 0 <= q < |Compact(seg, num)| ==> CompactFrom(seg, num, Compact(seg, num)[q])
  {
    if seg != [] {
      var k := |seg| - 1;
      assert Mapped(seg, csize)[..k] == Mapped(seg[..k], csize);
      CompactAscends(seg[..k], num, before, csize, numecs);
      CompactSnoc(seg, num, before, csize, numecs, Compact(seg[..k], num));
    }
  }

  lemma CompactSnoc(seg: seq<int>, num: seq<int>, before: seq<int>, csize: nat, numecs: nat, c: seq<int>)
    requires Numbered(before, num, csize, numecs) && num[0] == num[csize] && 0 < csize && seg != []
    requires ClassOk(Mapped(seg, csize), csize) && ClassOk(c, numecs)
    requires forall q :: 0 <= q < |c| ==> CompactFrom(seg[..|seg| - 1], num, c[q])
    ensures forall q :: 0 <= q < |c| ==> CompactFrom(seg, num, c[q])
    ensures var x := seg[|seg| - 1];
            0 <= x < |num| && (num[x] > 0 ==> ClassOk(c + [num[x]], numecs) && CompactFrom(seg, num, num[x]))
  {
    var k := |seg| - 1;
    LastCompact(seg, num, before, csize, numecs);
    var v := num[seg[k]];
    forall q | 0 <= q < |c| ensures CompactFrom(seg, num, c[q]) && (v > 0 ==> c[q] < v) {
      var p :| 0 <= p < k && 0 <= seg[..k][p] < |num| && num[seg[..k][p]] == c[q];
      assert seg[p] == seg[..k][p];
      RepresentativeOrder(seg, num, before, csize, numecs, p, k);
    }
  }

  lemma RepresentativeOrder(seg: seq<int>, num: seq<int>, before: seq<int>, csize: nat, numecs: nat, p: int, k: int)
    requires Numbered(before, num, csize, numecs) && num[0] == num[csize] && 0 < csize && 0 <= p < k < |seg|
    requires ClassOk(Mapped(seg, csize), csize)
    ensures 0 <= seg[p] < |num| && 0 <= seg[k] < |num|
    ensures num[seg[p]] > 0 && num[seg[k]] > 0 ==> num[seg[p]] < num[seg[k]]
  {
    var c := Mapped(seg, csize);
    assert c[p] < c[k] && num[seg[p]] == num[c[p]] && num[seg[k]] == num[c[k]];
  }

  lemma LastCompact(seg: seq<int>, num: seq<int>, before: seq<int>, csize: nat, numecs: nat)
    requires Numbered(before, num, csize, numecs) && num[0] == num[csize] && 0 < csize && seg != []
    requires ClassOk(Mapped(seg, csize), csize)
    ensures var k := |seg| - 1; 0 <= seg[k] < |num| && (num[seg[k]] > 0 ==> num[seg[k]] <= numecs)
  {
    var k := |seg| - 1;
    assert 1 <= Mapped(seg, csize)[k] <= csize;
    assert num[seg[k]] == num[Mapped(seg, csize)[k]];
  }

  // ----- a class and its equivalence classes

  /** A character is in a class exactly when its number is in the compacted class. */
  lemma ClassAbstraction(seg: seq<int>, num: seq<int>, before: seq<int>, csize: nat, numecs: nat, ch: int)
    requires Numbered(before, num, csize, numecs) && num[0] == num[csize] && 0 <= ch < csize
    requires ClassOk(Mapped(seg, csize), csize) && Whole(before, csize, Mapped(seg, csize))
    requires forall p :: 0 <= p < |seg| ==> 0 <= seg[p] < csize
    ensures ch in seg <==> Ec(num, ch) in Compact(seg, num)
  {
    var c, e := Mapped(seg, csize), Ec(num, ch);
    InCompact(seg, num, e);
    assert e == Abs(num[MapNul(ch, csize)]);
    if ch in seg {
      var p :| 0 <= p < |seg| && seg[p] == ch;
      assert c[p] == MapNul(ch, csize);
      var h :| 1 <= h <= csize && num[h] == e by { assert Used(num, csize, e); }
      assert Same(before, h, MapNul(ch, csize));
      var q :| 0 <= q < |c| && c[q] == h by { assert h in c; }
      assert num[seg[q]] == num[h];
      assert seg[q] in seg;
    }
    if e in Compact(seg, num) {
      var x :| x in seg && 0 <= x < |num| && num[x] == e && e > 0;
      var q :| 0 <= q < |seg| && seg[q] == x;
      assert c[q] == MapNul(x, csize) && num[MapNul(x, csize)] == e;
      assert Same(before, MapNul(x, csize), MapNul(ch, csize));
      assert MapNul(x, csize) in c;
      var r :| 0 <= r < |c| && c[r] == MapNul(ch, csize);
      assert seg[r] == ch;
    }
  }

  /** Class number e takes a transition with this symbol, as symfollowset decides it. */
  ghost predicate EcMatches(sym: int, e: int, num: seq<int>, cls: seq<ClassInfo>) {
    if sym >= 0 then sym < |num| && Abs(num[sym]) == e
    else -sym <= |cls| && ((e in cls[-sym - 1].members) != cls[-sym - 1].negated)
  }

  /** The classes after ccl2ecl. */
  ghost predicate Compacted(cls: seq<ClassInfo>, cls': seq<ClassInfo>, num: seq<int>) {
    |cls'| == |cls| && forall i :: 0 <= i < |cls| ==> cls'[i] == ClassInfo(Compact(cls[i].members, num), cls[i].negated)
  }

  /** The class is a union of lists of the partition, stored in order. */
  ghost predicate ClassFine(m: seq<int>, before: seq<int>, csize: nat) {
    && ClassOk(Mapped(m, csize), csize) && Whole(before, csize, Mapped(m, csize))
    && forall p :: 0 <= p < |m| ==> 0 <= m[p] < csize
  }

  /** The character abstraction keeps every step of the NFA: a label matches a character exactly when it
      matches the character's class number. */
  lemma StepAbstraction(sym: int, ch: int, num: seq<int>, before: seq<int>, csize: nat, numecs: nat,
                        cls: seq<ClassInfo>, cls': seq<ClassInfo>)
    requires Numbered(before, num, csize, numecs) && num[0] == num[csize] && 0 <= ch < csize
    requires Compacted(cls, cls', num) && -|cls| <= sym < csize
    requires if sym >= 0 then Whole(before, csize, [MapNul(sym, csize)])
             else ClassFine(cls[-sym - 1].members, before, csize)
    ensures Matches(sym, ch, cls, csize) <==> EcMatches(sym, Ec(num, ch), num, cls')
  {
    if sym < 0 {
      ClassAbstraction(cls[-sym - 1].members, num, before, csize, numecs, ch);
    } else {
      assert Abs(num[sym]) == Abs(num[MapNul(sym, csize)]) && Ec(num, ch) == Abs(num[MapNul(ch, csize)]);
      assert MapNul(sym, csize) in [MapNul(sym, csize)];
    }
  }

  // ----- ccl2ecl

  /** Class numbers as characters: ccltbl is an array of unsigned char, and number 256 is stored as 0. */
  function Bytes(c: seq<int>): (r: seq<int>)
    ensures |r| == |c|
  {
    seq(|c|, q requires 0 <= q < |c| => c[q] % CSIZE)
  }

  lemma BytesMore(c: seq<int>, x: int)
    ensures Bytes(c + [x]) == Bytes(c) + [x % CSIZE]
  {}

  /** Where only NUL can have the number 256, the numbers are told apart again by reading 0 as the number of NUL. */
  lemma BytesMapped(c: seq<int>, numecs: nat, nulEc: int)
    requires ClassOk(c, numecs) && numecs <= CSIZE && nulEc != 0 && (numecs == CSIZE ==> nulEc == CSIZE)
    ensures Mapped(Bytes(c), nulEc) == c
  {
    var m := Mapped(Bytes(c), nulEc);
    forall q | 0 <= q < |c| ensures m[q] == c[q] {
      if c[q] < CSIZE { assert c[q] % CSIZE == c[q]; }
    }
  }

  lemma {:induction false} CompactShorter(seg: seq<int>, num: seq<int>)
    ensures |Compact(seg, num)| <= |seg|
  {
    if seg != [] { CompactShorter(seg[..|seg| - 1], num); }
  }

  /** ccl2ecl: the members of every class are replaced, in place, by the numbers of the representatives among them. */
  method Ccl2Ecl(ccls: CclTable, ecgroup: seq<int>)
    requires ccls.Valid()
    requires forall i, p :: 1 <= i <= ccls.lastccl && 0 <= p < |ccls.Members(i)| ==> 0 <= ccls.Members(i)[p] < |ecgroup|
    modifies ccls`ccllen, ccls.ccltbl
    ensures ccls.Valid()
    ensures forall i :: 1 <= i <= ccls.lastccl ==> ccls.Members(i) == Bytes(Compact(old(ccls.Members(i)), ecgroup))
  {
    var i := 1;
    while i <= ccls.lastccl
      invariant 1 <= i <= ccls.lastccl + 1 && ccls.Valid()
      invariant forall k :: 1 <= k < i ==> ccls.Members(k) == Bytes(Compact(old(ccls.Members(k)), ecgroup))
      invariant forall k :: i <= k <= ccls.lastccl ==> ccls.Members(k) == old(ccls.Members(k))
    {
      CompactClass(ccls, i, ecgroup);
      i := i + 1;
    }
  }

  /** One class of ccl2ecl. */
  method CompactClass(ccls: CclTable, i: int, ecgroup: seq<int>)
    requires ccls.Valid() && 1 <= i <= ccls.lastccl
    requires forall p :: 0 <= p < |ccls.Members(i)| ==> 0 <= ccls.Members(i)[p] < |ecgroup|
    modifies ccls`ccllen, ccls.ccltbl
    ensures ccls.Valid() && ccls.Members(i) == Bytes(Compact(old(ccls.Members(i)), ecgroup))
    ensures forall k :: 1 <= k <= ccls.lastccl && k != i ==> ccls.Members(k) == old(ccls.Members(k))
  {
    hide Compact, Layout, Segment, Bytes;
    ghost var seg, before, len0 := ccls.Members(i), ccls.ccltbl[..], ccls.ccllen;
    SegmentAt(before, ccls.cclmap, ccls.ccllen, ccls.lastccl, i);
    var newlen, cclp, n := 0, ccls.cclmap[i], ccls.ccllen[i];
    CompactStart(seg, ecgroup);
    var c := 0;
    while c < n
      invariant ccls.ccllen == len0 && |ccls.ccltbl[..]| == |before|
      invariant 0 <= newlen <= c <= n && ccls.ccltbl[cclp..cclp + newlen] == Bytes(Compact(seg[..c], ecgroup))
      invariant forall p :: 0 <= p < ccls.ccltbl.Length && !(cclp <= p < cclp + c) ==> ccls.ccltbl[p] == before[p]
    {
      assert ccls.ccltbl[cclp + c] == seg[c];
      CompactNext(seg, c, ecgroup);
      var ich := ccls.ccltbl[cclp + c];
      var cclmec := ecgroup[ich];
      ghost var so := ccls.ccltbl[cclp..cclp + newlen];
      if cclmec > 0 {
        BytesMore(Compact(seg[..c], ecgroup), cclmec);
        ccls.ccltbl[cclp + newlen] := cclmec % CSIZE;
        newlen := newlen + 1;
        assert ccls.ccltbl[cclp..cclp + newlen] == so + [cclmec % CSIZE];
      }
      c := c + 1;
    }
    assert seg[..n] == seg;
    ccls.ccllen := ccls.ccllen[i := newlen];
    Shortened(before, ccls.ccltbl[..], ccls.cclmap, len0, ccls.lastccl, i, newlen);
  }

  lemma CompactStart(seg: seq<int>, num: seq<int>)
    ensures Bytes(Compact(seg[..0], num)) == []
  {}

  lemma CompactNext(seg: seq<int>, c: int, num: seq<int>)
    requires 0 <= c < |seg| && 0 <= seg[c] < |num|
    ensures Compact(seg[..c + 1], num)
            == if num[seg[c]] > 0 then Compact(seg[..c], num) + [num[seg[c]]] else Compact(seg[..c], num)
  {
    assert seg[..c + 1][..c] == seg[..c];
  }

  /** Class i has been shortened in place, and nothing outside it has been touched. */
  lemma Shortened(before: seq<int>, after: seq<int>, cclmap: seq<int>, ccllen: seq<int>, lastccl: int, i: int,
                  newlen: int)
    requires Layout(cclmap, ccllen, lastccl, |before|) && 1 <= i <= lastccl && |after| == |before|
             && 0 <= newlen <= ccllen[i]
    requires forall p :: 0 <= p < |after| && !(cclmap[i] <= p < cclmap[i] + ccllen[i]) ==> after[p] == before[p]
    ensures Layout(cclmap, ccllen[i := newlen], lastccl, |after|)
    ensures Segment(after, cclmap, ccllen[i := newlen], i) == after[cclmap[i]..cclmap[i] + newlen]
    ensures forall k :: 1 <= k <= lastccl && k != i ==>
              Segment(after, cclmap, ccllen[i := newlen], k) == Segment(before, cclmap, ccllen, k)
  {
    forall k | 1 <= k <= lastccl && k != i
      ensures Segment(after, cclmap, ccllen[i := newlen], k) == Segment(before, cclmap, ccllen, k)
    {
      if k < i { assert cclmap[k] + ccllen[k] <= cclmap[i]; } else { assert cclmap[i] + ccllen[i] <= cclmap[k]; }
      assert after[cclmap[k]..cclmap[k] + ccllen[k]] == before[cclmap[k]..cclmap[k] + ccllen[k]];
    }
  }
}
