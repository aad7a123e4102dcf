/** The character classes (ccl.c): all members in one table, class i at ccltbl[cclmap[i]..cclmap[i] + ccllen[i]]. */
module Ccl {
  import opened Ecs
  import opened Flexdef
  import opened Results

  /** The members of class i as stored. */
  function Segment(ccltbl: seq<int>, cclmap: seq<int>, ccllen: seq<int>, i: int): seq<int> {
    if 0 <= i < |cclmap| && i < |ccllen| && 0 <= cclmap[i] && 0 <= ccllen[i] && cclmap[i] + ccllen[i] <= |ccltbl|
    then ccltbl[cclmap[i]..cclmap[i] + ccllen[i]] else []
  }

  /** Members strictly ascending, NUL at the end as the largest one, and at most CSIZE of them. */
  ghost predicate ClassStored(cls: seq<int>, csize: int) {
    && 0 < csize && ClassOk(Mapped(cls, csize), csize) && |cls| <= CSIZE
    && forall p :: 0 <= p < |cls| ==> 0 <= cls[p] < csize
  }

  /** The class c is a union of lists: symbols that share a list are both in c or both outside. */
  ghost predicate Whole(bck: seq<int>, n: nat, c: seq<int>) {
    forall i, j :: 1 <= i <= n && 1 <= j <= n && Same(bck, i, j) ==> (i in c <==> j in c)
  }

  /** Dividing the lists by a class makes that class whole and keeps the others whole. */
  lemma WholeRefined(before: seq<int>, after: seq<int>, n: nat, c: seq<int>, d: seq<int>)
    requires RefinedBy(before, after, n, c)
    ensures Whole(after, n, c) && (Whole(before, n, d) ==> Whole(after, n, d))
  {}

  /** Every class so far is stored properly and is a union of lists. */
  ghost predicate ClassesOk(ccltbl: seq<int>, cclmap: seq<int>, ccllen: seq<int>, lastccl: int, bck: seq<int>,
                            csize: int) {
    && 0 <= lastccl < |cclmap| && lastccl < |ccllen| && 0 < csize
    && forall i :: 1 <= i <= lastccl ==> ClassOkAt(ccltbl, cclmap, ccllen, i, bck, csize)
  }

  ghost predicate ClassOkAt(ccltbl: seq<int>, cclmap: seq<int>, ccllen: seq<int>, i: int, bck: seq<int>, csize: int) {
    && 0 <= i < |cclmap| && i < |ccllen| && 0 <= cclmap[i] && 0 <= ccllen[i] && cclmap[i] + ccllen[i] <= |ccltbl|
       && 0 < csize
    && ClassStored(Segment(ccltbl, cclmap, ccllen, i), csize)
    && Whole(bck, csize, Mapped(Segment(ccltbl, cclmap, ccllen, i), csize))
  }

  lemma ClassesRefined(ccltbl: seq<int>, cclmap: seq<int>, ccllen: seq<int>, lastccl: int, before: seq<int>,
                       after: seq<int>, csize: int, c: seq<int>)
    requires ClassesOk(ccltbl, cclmap, ccllen, lastccl, before, csize) && RefinedBy(before, after, csize, c)
    ensures ClassesOk(ccltbl, cclmap, ccllen, lastccl, after, csize)
  {
    hide Whole, RefinedBy;
    forall i | 1 <= i <= lastccl ensures ClassOkAt(ccltbl, cclmap, ccllen, i, after, csize) {
      assert ClassOkAt(ccltbl, cclmap, ccllen, i, before, csize);
      WholeRefined(before, after, csize, c, Mapped(Segment(ccltbl, cclmap, ccllen, i), csize));
    }
  }

  lemma SegmentSame(ccltbl: seq<int>, map0: seq<int>, len0: seq<int>, map1: seq<int>, len1: seq<int>, i: int)
    requires 0 <= i < |map0| && i < |len0| && i < |map1| && i < |len1| && map1[i] == map0[i] && len1[i] == len0[i]
    ensures Segment(ccltbl, map1, len1, i) == Segment(ccltbl, map0, len0, i)
  {}

  lemma SegmentNone(ccltbl: seq<int>, cclmap: seq<int>, ccllen: seq<int>, i: int)
    requires 0 <= i < |ccllen| && ccllen[i] == 0
    ensures Segment(ccltbl, cclmap, ccllen, i) == []
  {}

  /** The classes lie one behind the other in the table. */
  ghost predicate Layout(cclmap: seq<int>, ccllen: seq<int>, lastccl: int, size: int) {
    && 0 <= lastccl < |cclmap| && lastccl < |ccllen|
    && (forall i :: 1 <= i <= lastccl ==> 0 <= cclmap[i] && 0 <= ccllen[i] && cclmap[i] + ccllen[i] <= size)
    && (forall i, j :: 1 <= i < j <= lastccl ==> cclmap[i] + ccllen[i] <= cclmap[j])
  }

  lemma SegmentAt(ccltbl: seq<int>, cclmap: seq<int>, ccllen: seq<int>, lastccl: int, i: int)
    requires Layout(cclmap, ccllen, lastccl, |ccltbl|) && 1 <= i <= lastccl
    ensures 0 <= cclmap[i] && 0 <= ccllen[i] && cclmap[i] + ccllen[i] <= |ccltbl|
    ensures Segment(ccltbl, cclmap, ccllen, i) == ccltbl[cclmap[i]..cclmap[i] + ccllen[i]]
  {}

  /** One character more in the last class. */
  lemma SegmentMore(before: seq<int>, after: seq<int>, cclmap: seq<int>, ccllen: seq<int>, lastccl: int, ch: int)
    requires 1 <= lastccl && Layout(cclmap, ccllen, lastccl, |before|) && |after| >= |before|
    requires var p := cclmap[lastccl] + ccllen[lastccl]; 0 <= p <= |before| && p < |after|
                                                         && after[..p] == before[..p] && after[p] == ch
    ensures Layout(cclmap, ccllen[lastccl := ccllen[lastccl] + 1], lastccl, |after|)
    ensures Segment(after, cclmap, ccllen[lastccl := ccllen[lastccl] + 1], lastccl) == Segment(before,
            cclmap, ccllen, lastccl) + [ch]
    ensures forall i :: 1 <= i < lastccl ==>
              Segment(after, cclmap, ccllen[lastccl := ccllen[lastccl] + 1], i) == Segment(before, cclmap, ccllen, i)
  {
    var p := cclmap[lastccl] + ccllen[lastccl];
    forall i | 1 <= i < lastccl
      ensures Segment(after, cclmap, ccllen[lastccl := ccllen[lastccl] + 1], i) == Segment(before, cclmap, ccllen, i)
    {
      SegmentSlice(before, after, cclmap[i], cclmap[i] + ccllen[i], p);
    }
    SegmentSlice(before, after, cclmap[lastccl], p, p);
  }

  lemma SegmentSlice(before: seq<int>, after: seq<int>, lo: int, hi: int, p: int)
    requires 0 <= lo <= hi <= p <= |before| && p <= |after| && after[..p] == before[..p]
    ensures after[lo..hi] == before[lo..hi]
  {
    assert after[lo..hi] == after[..p][lo..hi];
    assert before[lo..hi] == before[..p][lo..hi];
  }

  class CclTable {
    var cclmap: seq<int>
    var ccllen: seq<int>
    var cclng: seq<int>
    var ccltbl: array<int>
    var lastccl: int

    constructor ()
      ensures Valid() && lastccl == 0 && fresh(ccltbl)
    {
      cclmap := seq(INITIAL_MAX_CCLS, _ => 0);
      ccllen := seq(INITIAL_MAX_CCLS, _ => 0);
      cclng := seq(INITIAL_MAX_CCLS, _ => 0);
      ccltbl := new int[INITIAL_MAX_CCL_TBL_SIZE](_ => 0);
      lastccl := 0;
    }

    ghost predicate Valid()
      reads this
    {
      && 0 <= lastccl < |cclmap| == |ccllen| == |cclng|
      && Layout(cclmap, ccllen, lastccl, ccltbl.Length)
    }

    /** The members of class i. */
    ghost function Members(i: int): seq<int>
      reads this, ccltbl
    {
      Segment(ccltbl[..], cclmap, ccllen, i)
    }

    /** The arrays have room for one more class. */
    method MoreRoom()
      requires Valid()
      modifies this`cclmap, this`ccllen, this`cclng
      ensures Valid() && lastccl + 1 < |cclmap| == |ccllen| == |cclng| && |old(cclmap)| <= |cclmap|
      ensures cclmap[..|old(cclmap)|] == old(cclmap) && ccllen[..|old(ccllen)|] == old(ccllen)
              && cclng[..|old(cclng)|] == old(cclng)
    {
      if lastccl + 1 >= |cclmap| {
        cclmap := cclmap + seq(MAX_CCLS_INCREMENT, _ => 0);
        ccllen := ccllen + seq(MAX_CCLS_INCREMENT, _ => 0);
        cclng := cclng + seq(MAX_CCLS_INCREMENT, _ => 0);
      }
    }

    /** cclinit: a new, empty class behind the last one. */
    method CclInit() returns (ccl: int)
      requires Valid()
      modifies this
      ensures Valid() && ccltbl == old(ccltbl) && ccl == lastccl == old(lastccl) + 1 && Members(ccl) == []
              && cclng[ccl] == 0
      ensures forall i :: 1 <= i < ccl ==> Members(i) == old(Members(i)) && cclng[i] == old(cclng[i])
    {
      hide Segment;
      ghost var map0, len0 := cclmap, ccllen;
      MoreRoom();
      lastccl := lastccl + 1;
      if lastccl == 1 {
        cclmap := cclmap[lastccl := 0];
      } else {
        cclmap := cclmap[lastccl := cclmap[lastccl - 1] + ccllen[lastccl - 1]];
      }
      ccllen := ccllen[lastccl := 0];
      cclng := cclng[lastccl := 0];
      forall i | 1 <= i < lastccl ensures Members(i) == old(Members(i)) {
        SegmentSame(ccltbl[..], map0, len0, cclmap, ccllen, i);
      }
      SegmentNone(ccltbl[..], cclmap, ccllen, lastccl);
      return lastccl;
    }

    /** The loop of ccladd: is ch in the class already? */
    method Contains(cclp: int, ch: int) returns (found: bool)
      requires Valid() && 1 <= cclp <= lastccl
      ensures found <==> ch in Members(cclp)
    {
      hide Layout, Segment;
      SegmentAt(ccltbl[..], cclmap, ccllen, lastccl, cclp);
      var len, ind := ccllen[cclp], cclmap[cclp];
      ghost var m := Members(cclp);
      var i := 0;
      while i < len
        invariant 0 <= i <= len && ch !in m[..i]
      {
        assert ccltbl[ind + i] == m[i];
        if ccltbl[ind + i] == ch { return true; }
        i := i + 1;
      }
      assert m[..len] == m;
      return false;
    }

    /** ccladd for the class under construction, the last one. */
    method CclAdd(cclp: int, ch: int, csize: int) returns (r: Result<()>)
      requires Valid() && 1 <= cclp == lastccl && 0 <= ch && csize <= CSIZE
      modifies this`ccllen, this`ccltbl, ccltbl
      ensures Valid() && (ccltbl == old(ccltbl) || fresh(ccltbl))
      ensures r.Failure? <==> ch >= csize
      ensures r.Failure? ==> r.error == BadCharacter
      ensures Members(cclp) == if ch >= csize || ch in old(Members(cclp)) then old(Members(cclp))
              else old(Members(cclp)) + [ch]
      ensures forall i :: 1 <= i < cclp ==> Members(i) == old(Members(i))
    {
      hide Layout, Segment;
      if ch >= CSIZE || ch >= csize { return Failure(BadCharacter); }
      var found := Contains(cclp, ch);
      if found { return Success(()); }
      ghost var before, len0 := ccltbl[..], ccllen;
      SegmentAt(before, cclmap, ccllen, lastccl, cclp);
      var len, ind := ccllen[cclp], cclmap[cclp];
      var newpos := ind + len;
      if newpos >= ccltbl.Length {
        var bigger := new int[ccltbl.Length + MAX_CCL_TBL_SIZE_INCREMENT](k reads this,
            ccltbl => if 0 <= k < ccltbl.Length then ccltbl[k] else 0);
        ccltbl := bigger;
      }
      assert ccltbl[..newpos] == before[..newpos];
      ccllen := ccllen[cclp := len + 1];
      ccltbl[newpos] := ch;
      SegmentMore(before, ccltbl[..], cclmap, len0, lastccl, ch);
      return Success(());
    }

    /** cclnegate. */
    method CclNegate(cclp: int)
      requires Valid() && 1 <= cclp <= lastccl
      modifies this`cclng
      ensures Valid() && cclng == old(cclng)[cclp := 1]
    {
      cclng := cclng[cclp := 1];
    }
  }
}
