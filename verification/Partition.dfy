/** Following a symbol, and dividing the symbols by what they lead to (dfa.c: symfollowset, sympartition). */
module Partition {
  import opened Flexdef
  import opened Ecs
  import opened Nets
  import opened Ccl
  import opened Regex
  import opened Patterns
  import opened Subsets
  import opened Closure
  import opened StateSets

  /** A class of equivalence classes: ascending, within 1..numecs. */
  ghost predicate EcClassesOk(cls: seq<ClassInfo>, numecs: nat) {
    forall i :: 0 <= i < |cls| ==> ClassOk(cls[i].members, numecs) && |cls[i].members| <= CSIZE
  }

  /** The classes after ccl2ecl, as they are read: 0 stands for the class of NUL. */
  ghost function EcClasses(ccls: CclTable, nulEc: int): (cls: seq<ClassInfo>)
    reads ccls, ccls.ccltbl
    ensures |cls| == |Classes(ccls)|
    ensures forall i :: 0 <= i < |cls| ==> cls[i] == ClassInfo(Mapped(Classes(ccls)[i].members, nulEc),
                                                               Classes(ccls)[i].negated)
  {
    var raw := Classes(ccls);
    seq(|raw|, i requires 0 <= i < |raw| => ClassInfo(Mapped(raw[i].members, nulEc), raw[i].negated))
  }

  /** Every symbol state is labelled by a character that represents its class, or by an existing class. */
  ghost predicate LabelsOk(n: Net, num: seq<int>, k: int, csize: int, numecs: int) {
    && Sized(n) && csize < |num| && csize <= CSIZE
    && forall s :: 1 <= s <= n.last && n.tc[s] != SYM_EPSILON ==> LabelOk(n.tc[s], num, k, csize, numecs)
  }

  ghost predicate LabelOk(sym: int, num: seq<int>, k: int, csize: int, numecs: int)
    requires csize < |num|
  {
    -k <= sym < csize && (sym >= 0 ==> 1 <= num[sym] <= numecs)
  }

  /** The tables that tell which symbols a label stands for, once ccl2ecl is done. */
  class Symbols {
    const ccls: CclTable
    const ecgroup: array<int>
    const cclflags: array<int>
    const csize: int
    const numecs: nat
    const nulEc: int

    ghost predicate Valid()
      reads ccls, ccls.ccltbl, ecgroup, cclflags
    {
      && ccls.Valid() && (csize == 128 || csize == CSIZE) && ecgroup.Length == CSIZE + 1 && cclflags.Length == CSIZE
      && 1 <= numecs <= CSIZE && cclflags != ecgroup && cclflags != ccls.ccltbl
      && (forall q :: 0 <= q < cclflags.Length ==> cclflags[q] == 0)
      && EcClassesOk(Cls(), numecs)
    }

    ghost function Num(): seq<int>
      reads ecgroup
    {
      ecgroup[..]
    }

    ghost function Cls(): seq<ClassInfo>
      reads ccls, ccls.ccltbl
    {
      EcClasses(ccls, nulEc)
    }

    lemma NumbersAre()
      requires Valid()
      ensures Num() == ecgroup[..] && ecgroup.Length > 0 && Cls() == EcClasses(ccls, nulEc) && |Cls()| == ccls.lastccl
    {}

    constructor (ccls: CclTable, ecgroup: array<int>, cclflags: array<int>, csize: int, numecs: nat, nulEc: int)
      requires ccls.Valid() && (csize == 128 || csize == CSIZE) && ecgroup.Length == CSIZE + 1
               && cclflags.Length == CSIZE
      requires 1 <= numecs <= CSIZE && cclflags != ecgroup && cclflags != ccls.ccltbl
      requires forall q :: 0 <= q < cclflags.Length ==> cclflags[q] == 0
      requires EcClassesOk(EcClasses(ccls, nulEc), numecs)
      ensures Valid() && this.ccls == ccls && this.ecgroup == ecgroup && this.cclflags == cclflags
              && this.csize == csize
      ensures this.numecs == numecs && this.nulEc == nulEc
    {
      this.ccls, this.ecgroup, this.cclflags, this.csize, this.numecs, this.nulEc := ccls, ecgroup,
          cclflags, csize, numecs, nulEc;
    }

    /** Where the members of class c lie. */
    lemma MembersAt(c: int)
      requires Valid() && 1 <= c <= ccls.lastccl
      ensures c < |ccls.cclmap| && c < |ccls.ccllen| && c < |ccls.cclng| && c <= |Cls()|
      ensures 0 <= ccls.cclmap[c] && 0 <= ccls.ccllen[c] && ccls.cclmap[c] + ccls.ccllen[c] <= ccls.ccltbl.Length
      ensures Mapped(ccls.ccltbl[ccls.cclmap[c]..ccls.cclmap[c] + ccls.ccllen[c]], nulEc) == Cls()[c - 1].members
      ensures Cls()[c - 1].negated == (ccls.cclng[c] != 0) && ClassOk(Cls()[c - 1].members, numecs)
              && |Cls()[c - 1].members| <= CSIZE
    {
      SegmentAt(ccls.ccltbl[..], ccls.cclmap, ccls.ccllen, ccls.lastccl, c);
      assert Classes(ccls)[c - 1].members == ccls.Members(c);
    }

    /** The member at position j of a class, as it is read. */
    lemma MemberAt(ccllist: int, lenccl: int, m: seq<int>, j: int)
      requires 0 <= ccllist && 0 <= j < lenccl && ccllist + lenccl <= ccls.ccltbl.Length
      requires Mapped(ccls.ccltbl[ccllist..ccllist + lenccl], nulEc) == m && ClassOk(m, numecs)
      ensures j < |m| && m[j] == if ccls.ccltbl[ccllist + j] == 0 then nulEc else ccls.ccltbl[ccllist + j]
    {
      var raw := ccls.ccltbl[ccllist..ccllist + lenccl];
      assert raw[j] == ccls.ccltbl[ccllist + j] && m[j] == MapNul(raw[j], nulEc);
    }

    /** The scan of symfollowset through a class: is transsym a member? */
    method ScanClass(ccllist: int, lenccl: int, transsym: int, ghost m: seq<int>) returns (found: bool)
      requires 0 <= ccllist && 0 <= lenccl && ccllist + lenccl <= ccls.ccltbl.Length
      requires Mapped(ccls.ccltbl[ccllist..ccllist + lenccl], nulEc) == m && ClassOk(m, numecs)
      ensures found <==> transsym in m
    {
      var j := 0;
      while j < lenccl
        invariant 0 <= j <= lenccl == |m| && forall q :: 0 <= q < j ==> m[q] < transsym
      {
        MemberAt(ccllist, lenccl, m, j);
        var ch := ccls.ccltbl[ccllist + j];
        if ch == 0 { ch := nulEc; }
        if ch > transsym {
          break;
        } else if ch == transsym {
          return true;
        }
        j := j + 1;
      }
      return false;
    }

    /** symfollowset: nset lists the successors of the states of ds that take transsym. */
    method SymFollowSet(sets: StateSet, ds: seq<int>, transsym: int) returns (numstates: int)
      requires Valid() && sets.Valid() && sets.nset != ecgroup && sets.nset != cclflags && sets.nset != ccls.ccltbl
      requires |ds| < sets.currentMaxDfaSize && InNet(sets.Nfa(), ds)
      requires LabelsOk(sets.Nfa(), Num(), ccls.lastccl, csize, numecs)
      modifies sets.nset
      ensures Valid() && sets.Valid() && 0 <= numstates <= |ds|
      ensures sets.nset[1..numstates + 1] == Follow(sets.Nfa(), Num(), Cls(), ds, transsym)
    {
      hide EcClassesOk, LabelsOk, Sane, Layout, Takes, EcClasses, Classes, Follow;
      ghost var n, num, cls := sets.Nfa(), Num(), Cls();
      SaneFacts(n, sets.accptnum, sets.numRules);
      FollowNone(n, num, cls, ds, transsym);
      numstates := 0;
      var i := 0;
      while i < |ds|
        invariant 0 <= i <= |ds| && 0 <= numstates <= i
        invariant Valid() && Num() == num && Cls() == cls && sets.trans1[..] == sets.t0
        invariant sets.nset[1..numstates + 1] == Follow(n, num, cls, ds[..i], transsym)
      {
        var ns := ds[i];
        FollowStep(n, num, cls, ds, i, transsym);
        LabelAt(n, num, ccls.lastccl, csize, numecs, ns);
        var takes := TakesSymbol(sets.transchar[ns], transsym, n, ns);
        if takes {
          numstates := numstates + 1;
          sets.nset[numstates] := sets.trans1[ns];
        }
        i := i + 1;
      }
      assert ds[..i] == ds;
    }

    /** The case distinction of symfollowset: does a state with label sym go on with transsym? */
    method TakesSymbol(sym: int, transsym: int, ghost n: Net, ghost s: int) returns (takes: bool)
      requires Valid() && 1 <= s <= n.last && Sized(n) && sym == n.tc[s]
      requires sym != SYM_EPSILON ==> LabelOk(sym, Num(), ccls.lastccl, csize, numecs)
      ensures takes <==> Takes(n, Num(), Cls(), s, transsym)
    {
      hide EcClassesOk, Layout, EcClasses, Mapped, Segment, ClassOk;
      if sym < 0 {
        var c := -sym;
        MembersAt(c);
        var found := ScanClass(ccls.cclmap[c], ccls.ccllen[c], transsym, Cls()[c - 1].members);
        takes := if ccls.cclng[c] != 0 then !found else found;
      } else if sym == SYM_EPSILON {
        takes := false;
      } else {
        takes := Abs(ecgroup[sym]) == transsym;
      }
    }

    /** The loops of sympartition that note which symbols a class stands for. */
    method MarkClass(c: int, symlist: array<int>)
      requires Valid() && 1 <= c <= ccls.lastccl && symlist.Length == CSIZE + 1
      requires symlist != ecgroup && symlist != cclflags && symlist != ccls.ccltbl
      modifies symlist
      ensures MarkedFor(old(symlist[..]), symlist[..], numecs, Cls()[c - 1])
    {
      hide EcClassesOk, Layout;
      ghost var m, cls, before := Cls()[c - 1].members, Cls(), symlist[..];
      MembersAt(c);
      var lenccl, cclp := ccls.ccllen[c], ccls.cclmap[c];
      if ccls.cclng[c] != 0 {
        MarkOutside(cclp, lenccl, symlist, m);
      } else {
        MarkMembers(cclp, lenccl, symlist, m);
      }
    }

    /** The symbols outside a negated class. */
    method MarkOutside(cclp: int, lenccl: int, symlist: array<int>, ghost m: seq<int>)
      requires symlist.Length == CSIZE + 1 && 1 <= numecs <= CSIZE && symlist != ccls.ccltbl && 0 <= cclp
               && 0 <= lenccl == |m|
      requires cclp + lenccl <= ccls.ccltbl.Length && Mapped(ccls.ccltbl[cclp..cclp + lenccl], nulEc) == m
               && ClassOk(m, numecs)
      modifies symlist
      ensures MarkedFor(old(symlist[..]), symlist[..], numecs, ClassInfo(m, true))
    {
      ghost var before := symlist[..];
      var j := 0;
      var k := 0;
      while k < lenccl
        invariant 0 <= k <= lenccl && j == (if k == 0 then 0 else m[k - 1]) && 0 <= j <= numecs
        invariant GapsMarked(before, symlist[..], m, j)
      {
        MemberAt(cclp, lenccl, m, k);
        var ich := ccls.ccltbl[cclp + k];
        if ich == 0 { ich := nulEc; }
        MarkGap(symlist, j + 1, ich, before, m, k);
        j := ich;
        k := k + 1;
      }
      j := j + 1;
      while j <= numecs
        invariant 1 <= j <= numecs + 1 && GapsMarked(before, symlist[..], m, j - 1)
        invariant lenccl > 0 ==> m[lenccl - 1] < j
      {
        symlist[j] := 1;
        j := j + 1;
      }
    }

    /** The symbols of a class. */
    method MarkMembers(cclp: int, lenccl: int, symlist: array<int>, ghost m: seq<int>)
      requires symlist.Length == CSIZE + 1 && 1 <= numecs <= CSIZE && symlist != ccls.ccltbl && 0 <= cclp
               && 0 <= lenccl == |m|
      requires cclp + lenccl <= ccls.ccltbl.Length && Mapped(ccls.ccltbl[cclp..cclp + lenccl], nulEc) == m
               && ClassOk(m, numecs)
      modifies symlist
      ensures MarkedFor(old(symlist[..]), symlist[..], numecs, ClassInfo(m, false))
    {
      ghost var before := symlist[..];
      var k := 0;
      while k < lenccl
        invariant 0 <= k <= lenccl
        invariant forall e :: 0 <= e <= CSIZE ==> symlist[e] == if e in m[..k] then 1 else before[e]
      {
        MemberAt(cclp, lenccl, m, k);
        var ich := ccls.ccltbl[cclp + k];
        if ich == 0 { ich := nulEc; }
        symlist[ich] := 1;
        assert m[..k + 1] == m[..k] + [m[k]];
        k := k + 1;
      }
      assert m[..k] == m;
    }

    /** The symbols between two members of a negated class. */
    method MarkGap(symlist: array<int>, from: int, ich: int, ghost before: seq<int>, ghost m: seq<int>, ghost k: int)
      requires symlist.Length == CSIZE + 1 && ClassOk(m, numecs) && 0 <= k < |m| && ich == m[k] && numecs <= CSIZE
      requires from == (if k == 0 then 0 else m[k - 1]) + 1 && GapsMarked(before, symlist[..], m, from - 1)
      modifies symlist
      ensures GapsMarked(before, symlist[..], m, ich)
    {
      var j := from;
      while j < ich
        invariant from <= j <= ich && GapsMarked(before, symlist[..], m, j - 1)
      {
        symlist[j] := 1;
        j := j + 1;
      }
    }

    /** The lists are divided by a class. */
    method DivideByClass(c: int, dupfwd: array<int>, duplist: array<int>)
      requires Valid() && 1 <= c <= ccls.lastccl && duplist.Length == dupfwd.Length == CSIZE + 1 && duplist != dupfwd
      requires duplist != ecgroup && duplist != cclflags && duplist != ccls.ccltbl
      requires dupfwd != ecgroup && dupfwd != cclflags && dupfwd != ccls.ccltbl
      requires WellLinked(dupfwd[..], duplist[..], numecs)
      modifies dupfwd, duplist, cclflags
      ensures Valid() && WellLinked(dupfwd[..], duplist[..], numecs) && c <= |Cls()|
      ensures RefinedBy(old(duplist[..]), duplist[..], numecs, Cls()[c - 1].members)
    {
      hide EcClassesOk, Layout, WellLinked, RefinedBy, SameOutside, EcClasses, Classes;
      MembersAt(c);
      MkEccl(ccls.ccltbl[ccls.cclmap[c]..ccls.cclmap[c] + ccls.ccllen[c]], dupfwd, duplist,
          numecs, nulEc, cclflags);
    }

    /** The loop body of sympartition for a state with symbol tch. */
    method DivideBy(tch: int, symlist: array<int>, dupfwd: array<int>, duplist: array<int>)
      requires Valid() && (tch != SYM_EPSILON ==> LabelOk(tch, Num(), ccls.lastccl, csize, numecs))
      requires symlist.Length == duplist.Length == dupfwd.Length == CSIZE + 1 && symlist != duplist
               && symlist != dupfwd && duplist != dupfwd
      requires symlist != ecgroup && symlist != cclflags && symlist != ccls.ccltbl
      requires duplist != ecgroup && duplist != cclflags && duplist != ccls.ccltbl
      requires dupfwd != ecgroup && dupfwd != cclflags && dupfwd != ccls.ccltbl
      requires WellLinked(dupfwd[..], duplist[..], numecs)
      modifies symlist, dupfwd, duplist, cclflags
      ensures Valid() && WellLinked(dupfwd[..], duplist[..], numecs)
      ensures Divided(tch, Num(), Cls(), old(symlist[..]), symlist[..], old(duplist[..]), duplist[..], numecs)
    {
      hide EcClassesOk, Layout, WellLinked, RefinedBy, SameOutside, MarkedFor, EcClasses, Classes;
      if tch != SYM_EPSILON {
        assert -ccls.lastccl <= tch < csize;
        if tch >= 0 {
          var ec := ecgroup[tch];
          MkEchar(ec, dupfwd, duplist, numecs);
          symlist[ec] := 1;
        } else {
          var c := -tch;
          DivideByClass(c, dupfwd, duplist);
          MarkClass(c, symlist);
        }
      }
    }

    /** sympartition: symlist gets the symbols that some state of ds takes; the lists threaded through duplist
        (and dupfwd) join symbols that the same states take. */
    method SymPartition(ds: seq<int>, symlist: array<int>, duplist: array<int>, transchar: seq<int>, ghost n: Net)
      requires n.tc == transchar && Valid() && InNet(n, ds) && LabelsOk(n, Num(), ccls.lastccl, csize, numecs)
      requires symlist.Length == duplist.Length == CSIZE + 1 && symlist != duplist
      requires symlist != ecgroup && symlist != cclflags && symlist != ccls.ccltbl
      requires duplist != ecgroup && duplist != cclflags && duplist != ccls.ccltbl
      requires forall e :: 1 <= e <= numecs ==> symlist[e] == 0
      modifies symlist, duplist, cclflags
      ensures Valid()
      ensures Listed(n, Num(), Cls(), ds, symlist[..], numecs)
      ensures Separated(n, Num(), Cls(), ds, duplist[..], numecs)
      ensures forall e :: 1 <= e <= numecs ==> 0 <= duplist[e] < e
                                               && (duplist[e] != 0 ==> Same(duplist[..], e, duplist[e]))
    {
      hide EcClassesOk, Layout, LabelsOk, Takes, WellLinked, RefinedBy, SameOutside, Listed, Separated, MarkedFor,
           EcClasses, Classes;
      ghost var num, cls := Num(), Cls();
      var dupfwd := new int[CSIZE + 1];
      InitLinks(dupfwd, duplist, numecs);
      PartitionStart(n, num, cls, ds, symlist[..], duplist[..], numecs);
      var i := 0;
      while i < |ds|
        invariant 0 <= i <= |ds| && Valid() && Num() == num && Cls() == cls
        invariant WellLinked(dupfwd[..], duplist[..], numecs)
        invariant Listed(n, num, cls, ds[..i], symlist[..], numecs)
                  && Separated(n, num, cls, ds[..i], duplist[..], numecs)
      {
        var ns := ds[i];
        LabelAt(n, num, ccls.lastccl, csize, numecs, ns);
        ghost var list0, dup0 := symlist[..], duplist[..];
        DivideBy(transchar[ns], symlist, dupfwd, duplist);
        PartitionStep(n, num, cls, ds, i, list0, symlist[..], dup0, duplist[..], numecs, ccls.lastccl, csize);
        i := i + 1;
      }
      assert ds[..i] == ds;
      DupLinks(dupfwd[..], duplist[..], numecs);
    }
  }

  /** The lists have been divided, and the symbols noted, for a state with symbol tch. */
  ghost predicate Divided(tch: int, num: seq<int>, cls: seq<ClassInfo>, list0: seq<int>, list1: seq<int>,
                          dup0: seq<int>, dup1: seq<int>, numecs: nat) {
    if tch == SYM_EPSILON then list1 == list0 && dup1 == dup0
    else if tch >= 0 then
      tch < |num| && 0 <= num[tch] < |list0| && RefinedBy(dup0, dup1, numecs, [num[tch]])
          && list1 == list0[num[tch] := 1]
    else
      -tch <= |cls| && RefinedBy(dup0, dup1, numecs, cls[-tch - 1].members)
          && MarkedFor(list0, list1, numecs, cls[-tch - 1])
  }

  lemma PartitionStep(n: Net, num: seq<int>, cls: seq<ClassInfo>, ds: seq<int>, i: int, list0: seq<int>,
                      list1: seq<int>, dup0: seq<int>, dup1: seq<int>, numecs: nat, k: int, csize: int)
    requires 0 <= i < |ds| && 1 <= ds[i] <= n.last && LabelsOk(n, num, k, csize, numecs) && numecs <= CSIZE
    requires Listed(n, num, cls, ds[..i], list0, numecs) && Separated(n, num, cls, ds[..i], dup0, numecs)
    requires Divided(n.tc[ds[i]], num, cls, list0, list1, dup0, dup1, numecs)
    ensures Listed(n, num, cls, ds[..i + 1], list1, numecs) && Separated(n, num, cls, ds[..i + 1], dup1, numecs)
  {
    forall e | 1 <= e <= numecs ensures list1[e] != 0 <==> Taken(n, num, cls, ds[..i + 1], e) {
      TakenStep(n, num, cls, ds, i, e);
    }
    var d := ds[..i + 1];
    forall e, f, j | 1 <= e <= numecs && 1 <= f <= numecs && Same(dup1, e, f) && 0 <= j < |d|
      ensures Takes(n, num, cls, d[j], e) <==> Takes(n, num, cls, d[j], f)
    {
      if j < i { assert d[j] == ds[..i][j]; }
    }
  }

  lemma TakenStep(n: Net, num: seq<int>, cls: seq<ClassInfo>, ds: seq<int>, i: int, e: int)
    requires 0 <= i < |ds|
    ensures Taken(n, num, cls, ds[..i + 1], e) <==> Taken(n, num, cls, ds[..i], e) || Takes(n, num, cls, ds[i], e)
  {
    if Taken(n, num, cls, ds[..i], e) {
      var j :| 0 <= j < i && Takes(n, num, cls, ds[..i][j], e);
      assert ds[..i + 1][j] == ds[..i][j];
    }
    if Takes(n, num, cls, ds[i], e) { assert ds[..i + 1][i] == ds[i]; }
  }

  lemma PartitionStart(n: Net, num: seq<int>, cls: seq<ClassInfo>, ds: seq<int>, symlist: seq<int>, dup: seq<int>,
                       numecs: int)
    requires |symlist| == CSIZE + 1 && forall e :: 1 <= e <= numecs && e <= CSIZE ==> symlist[e] == 0
    ensures Listed(n, num, cls, ds[..0], symlist, numecs) && Separated(n, num, cls, ds[..0], dup, numecs)
  {}

  /** The previous symbol on a list is smaller, and on the same list. */
  lemma DupLinks(fwd: seq<int>, dup: seq<int>, n: nat)
    requires WellLinked(fwd, dup, n)
    ensures n < |dup| && forall e :: 1 <= e <= n ==> 0 <= dup[e] < e && (dup[e] != 0 ==> Same(dup, e, dup[e]))
  {}

  /** Symbols on one list have the same follow set. */
  lemma {:induction false} SameFollow(n: Net, num: seq<int>, cls: seq<ClassInfo>, ds: seq<int>, e: int, f: int)
    requires forall i :: 0 <= i < |ds| ==> (Takes(n, num, cls, ds[i], e) <==> Takes(n, num, cls, ds[i], f))
    ensures Matching(n, num, cls, ds, e) == Matching(n, num, cls, ds, f)
    ensures Follow(n, num, cls, ds, e) == Follow(n, num, cls, ds, f)
  {
    if ds != [] {
      var k := |ds| - 1;
      SameFollow(n, num, cls, ds[..k], e, f);
    }
  }

  /** A symbol is listed exactly when it leads anywhere. */
  lemma TakenFollow(n: Net, num: seq<int>, cls: seq<ClassInfo>, ds: seq<int>, e: int)
    ensures Taken(n, num, cls, ds, e) <==> Follow(n, num, cls, ds, e) != []
  {
    if Taken(n, num, cls, ds, e) {
      var i :| 0 <= i < |ds| && Takes(n, num, cls, ds[i], e);
      InMatching(n, num, cls, ds, e, ds[i]);
    }
    if Follow(n, num, cls, ds, e) != [] {
      var q := Matching(n, num, cls, ds, e)[0];
      assert q in ds;
    }
  }

  /** e is among the symbols of a class. */
  ghost predicate InInfo(info: ClassInfo, e: int) {
    (e in info.members) != info.negated
  }

  /** The symbols of a class have been noted. */
  ghost predicate MarkedFor(before: seq<int>, after: seq<int>, numecs: int, info: ClassInfo) {
    && |before| == |after| == CSIZE + 1
    && forall e :: 1 <= e <= numecs && e <= CSIZE ==> after[e] == if InInfo(info, e) then 1 else before[e]
  }

  /** Up to j, the symbols that are not in m have been noted. */
  ghost predicate GapsMarked(before: seq<int>, after: seq<int>, m: seq<int>, j: int) {
    && |before| == |after| == CSIZE + 1
    && forall e :: 1 <= e <= CSIZE ==> after[e] == if e <= j && e !in m then 1 else before[e]
  }

  ghost predicate Listed(n: Net, num: seq<int>, cls: seq<ClassInfo>, ds: seq<int>, symlist: seq<int>, numecs: int) {
    |symlist| == CSIZE + 1 && forall e :: 1 <= e <= numecs && e <= CSIZE
                                ==> (symlist[e] != 0 <==> Taken(n, num, cls, ds, e))
  }

  /** Some state of ds goes on with e. */
  ghost predicate Taken(n: Net, num: seq<int>, cls: seq<ClassInfo>, ds: seq<int>, e: int) {
    exists i :: 0 <= i < |ds| && Takes(n, num, cls, ds[i], e)
  }

  /** Symbols on one list are taken by the same states of ds. */
  ghost predicate Separated(n: Net, num: seq<int>, cls: seq<ClassInfo>, ds: seq<int>, dup: seq<int>, numecs: int) {
    forall e, f, i :: 1 <= e <= numecs && 1 <= f <= numecs && Same(dup, e, f) && 0 <= i < |ds| ==>
      (Takes(n, num, cls, ds[i], e) <==> Takes(n, num, cls, ds[i], f))
  }

  lemma LabelAt(n: Net, num: seq<int>, k: int, csize: int, numecs: int, s: int)
    requires LabelsOk(n, num, k, csize, numecs) && 1 <= s <= n.last
    ensures csize < |num| && Sized(n) && (n.tc[s] != SYM_EPSILON ==> LabelOk(n.tc[s], num, k, csize, numecs))
  {}

  lemma FollowNone(n: Net, num: seq<int>, cls: seq<ClassInfo>, ds: seq<int>, e: int)
    ensures Follow(n, num, cls, ds[..0], e) == []
  {}

  lemma FollowStep(n: Net, num: seq<int>, cls: seq<ClassInfo>, ds: seq<int>, i: int, e: int)
    requires 0 <= i < |ds|
    ensures Follow(n, num, cls, ds[..i + 1], e)
         == Follow(n, num, cls, ds[..i], e) + if Takes(n, num, cls, ds[i], e) then [n.t1[ds[i]]] else []
  {
    assert ds[..i + 1][..i] == ds[..i];
  }
}
