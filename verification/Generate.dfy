/** The generator as a whole (main.c: main, readin; the start of ntod): from the rules to a scanner. */
module Generate {
  import opened Flexdef
  import opened Results
  import opened Nets
  import opened Machines
  import opened Ccl
  import opened Nfa
  import opened Regex
  import opened Patterns
  import opened Divisions
  import opened Rules
  import opened Abstraction
  import opened Subsets
  import opened Closure
  import opened StateSets
  import opened Partition
  import opened Interning
  import opened Packing
  import opened Compression
  import opened Gentabs
  import opened Dfa
  import opened Scanner
  import opened Prefixes
  import opened Templates
  import opened Matcher
  import Ecs

  /** The NFA of the rules is one that epsclosure and ntod can work on. */
  lemma CompleteSane(s: Arrays, infos: seq<Info>)
    requires Complete(s, infos) && 0 <= s.net.last < MARKER_DIFFERENCE
    ensures Sane(s.net, s.accptnum, |infos|)
  {
    hide Region, Solid, InfoOk, Closed, Tidy;
    WholeRegion(s.net);
    forall st | 1 <= st <= s.net.last && s.accptnum[st] != 0
      ensures 1 <= s.accptnum[st] <= |infos| && infos[s.accptnum[st] - 1].m.final == st && !Solid(s.net, st)
    {
      assert IsFinal(infos, st);
      var k :| 0 <= k < |infos| && infos[k].m.final == st;
      FinalSane(s, k, infos[k]);
    }
  }

  lemma WholeRegion(n: Net)
    requires Region(n, 1, n.last, 0, 0)
    ensures Closed(n, 1, n.last) && Tidy(n, 1, n.last)
  {}

  lemma FinalSane(s: Arrays, k: int, info: Info)
    requires InfoOk(s, k, info)
    ensures 0 <= info.m.final < |s.accptnum| && s.accptnum[info.m.final] == k + 1 && !Solid(s.net, info.m.final)
  {}

  lemma AttachedStarts(s: Arrays, starts: seq<int>, on: seq<set<int>>, infos: seq<Info>)
    requires AllAttached(s, starts, on, infos) && |starts| >= 1 && Nfa.Fits(s)
    ensures StartsFine(s.net, s.accptnum, starts)
  {
    forall i | 1 <= i < |starts| ensures 1 <= starts[i] <= s.net.last && !Significant(s.net, s.accptnum, starts[i]) {
      assert Plain(s, starts[i]);
    }
  }

  /** A character with a list of its own carries a positive number. */
  lemma AlonePositive(before: seq<int>, num: seq<int>, fwd: seq<int>, csize: nat, numecs: nat, x: int)
    requires Ecs.WellLinked(fwd, before, csize) && Ecs.Numbered(before, num, csize, numecs) && 1 <= x <= csize
             && Ccl.Whole(before, csize, [x])
    ensures 1 <= num[x] <= numecs
  {
    assert before[x] != 0 ==> Ecs.Same(before, x, before[x]);
    assert before[x] == 0;
  }

  /** What cre8ecs and ccl2ecl make of the partition and the classes. */
  lemma Numbering(n: Net, fwd: seq<int>, before: seq<int>, num: seq<int>, csize: nat, numecs: nat, cls: seq<ClassInfo>,
                  ecls: seq<ClassInfo>)
    requires Sized(n) && 0 < csize < |num| && csize <= CSIZE && Ecs.WellLinked(fwd, before, csize)
    requires Ecs.Numbered(before, num, csize, numecs) && num[0] == num[csize] && Compacted(cls, ecls, num)
    requires CharsApart(n.tc, n.last, |cls|, before, csize)
    requires forall i :: 0 <= i < |cls| ==> ClassFine(cls[i].members, before, csize) && |cls[i].members| <= CSIZE
    ensures Abstracts(n, num, before, csize, numecs, cls, ecls)
    ensures LabelsOk(n, num, |cls|, csize, numecs) && EcClassesOk(ecls, numecs)
  {
    hide Ecs.WellLinked, Ccl.Whole;
    forall s | 1 <= s <= n.last && n.tc[s] != SYM_EPSILON
      ensures LabelFine(n.tc[s], before, csize, cls) && LabelOk(n.tc[s], num, |cls|, csize, numecs)
    {
      var sym := n.tc[s];
      if sym >= 0 {
        AlonePositive(before, num, fwd, csize, numecs, Ecs.MapNul(sym, csize));
      }
    }
    forall i | 0 <= i < |ecls| ensures Ecs.ClassOk(ecls[i].members, numecs) && |ecls[i].members| <= CSIZE {
      assert ClassFine(cls[i].members, before, csize);
      CompactAscends(cls[i].members, num, before, csize, numecs);
      CompactShorter(cls[i].members, num);
    }
  }

  /** The stored classes are unions of lists. */
  lemma ClassesFine(ccltbl: seq<int>, cclmap: seq<int>, ccllen: seq<int>, lastccl: int, bck: seq<int>, csize: nat,
                    cls: seq<ClassInfo>)
    requires ClassesOk(ccltbl, cclmap, ccllen, lastccl, bck, csize) && |cls| == lastccl
    requires forall i :: 0 <= i < |cls| ==> cls[i].members == Segment(ccltbl, cclmap, ccllen, i + 1)
    ensures forall i :: 0 <= i < |cls| ==> ClassFine(cls[i].members, bck, csize) && |cls[i].members| <= CSIZE
  {
    hide Ccl.Whole;
    forall i | 0 <= i < |cls| ensures ClassFine(cls[i].members, bck, csize) && |cls[i].members| <= CSIZE {
      assert ClassOkAt(ccltbl, cclmap, ccllen, i + 1, bck, csize);
    }
  }

  // ----- readin

  /** The class numbers after readin and what they are good for. */
  ghost predicate Numbers(n: Net, num: seq<int>, before: seq<int>, csize: nat, numecs: nat, cls: seq<ClassInfo>,
                          ecls: seq<ClassInfo>) {
    && Abstracts(n, num, before, csize, numecs, cls, ecls) && LabelsOk(n, num, |cls|, csize, numecs)
       && EcClassesOk(ecls, numecs)
    && 1 <= numecs <= csize && |num| == CSIZE + 1 && (csize == 128 || csize == CSIZE)
    && (numecs == csize ==> forall ch :: 1 <= ch <= csize ==> num[ch] == ch)
  }

  lemma ClassMembers(ccls: CclTable, i: int)
    requires ccls.Valid() && 1 <= i <= ccls.lastccl
    ensures |Classes(ccls)| == ccls.lastccl && Classes(ccls)[i - 1] == ClassInfo(ccls.Members(i), ccls.cclng[i] != 0)
  {}

  lemma MembersInside(nfa: NfaBuilder, i: int)
    requires nfa.Valid() && 1 <= i <= nfa.ccls.lastccl
    ensures forall p :: 0 <= p < |nfa.ccls.Members(i)| ==> 0 <= nfa.ccls.Members(i)[p] < nfa.csize
  {
    assert ClassOkAt(nfa.ccls.ccltbl[..], nfa.ccls.cclmap, nfa.ccls.ccllen, i, nfa.ecgroup[..], nfa.csize);
  }

  /** The members of all classes are characters. */
  ghost predicate Inside(cls: seq<ClassInfo>, csize: nat) {
    forall i, p :: 0 <= i < |cls| && 0 <= p < |cls[i].members| ==> 0 <= cls[i].members[p] < csize
  }

  lemma AllInside(nfa: NfaBuilder)
    requires nfa.Valid()
    ensures nfa.csize >= 0 && Inside(Classes(nfa.ccls), nfa.csize)
  {
    hide NfaBuilder.Valid, NfaBuilder.CharsOk;
    NfaFacts(nfa);
    AllFine(nfa);
    forall i | 1 <= i <= nfa.ccls.lastccl
      ensures forall p :: 0 <= p < |nfa.ccls.Members(i)| ==> 0 <= nfa.ccls.Members(i)[p] < nfa.csize
      ensures Classes(nfa.ccls)[i - 1] == ClassInfo(nfa.ccls.Members(i), nfa.ccls.cclng[i] != 0)
    {
      MembersInside(nfa, i);
      ClassMembers(nfa.ccls, i);
    }
  }

  /** ccl2ecl, said of all that is known about the classes. */
  method CompactAll(ccls: CclTable, num: seq<int>, csize: nat)
    requires ccls.Valid() && Inside(Classes(ccls), csize) && csize <= |num|
    modifies ccls`ccllen, ccls.ccltbl
    ensures ccls.Valid() && |Classes(ccls)| == |old(Classes(ccls))|
    ensures forall i :: 0 <= i < |Classes(ccls)|
              ==> Classes(ccls)[i] == ClassInfo(Bytes(Compact(old(Classes(ccls))[i].members, num)),
                                                old(Classes(ccls))[i].negated)
  {
    hide CclTable.Members, Bytes, Compact;
    ghost var cls0 := Classes(ccls);
    forall i | 1 <= i <= ccls.lastccl
      ensures |cls0| == ccls.lastccl && cls0[i - 1] == ClassInfo(ccls.Members(i), ccls.cclng[i] != 0)
    {
      ClassMembers(ccls, i);
    }
    Ccl2Ecl(ccls, num);
    forall i | 0 <= i < ccls.lastccl
      ensures |Classes(ccls)| == ccls.lastccl
      ensures Classes(ccls)[i] == ClassInfo(Bytes(Compact(cls0[i].members, num)), cls0[i].negated)
    {
      ClassMembers(ccls, i + 1);
    }
  }

  lemma AllFine(nfa: NfaBuilder)
    requires nfa.Valid()
    ensures |Classes(nfa.ccls)| == nfa.ccls.lastccl
    ensures forall i :: 0 <= i < nfa.ccls.lastccl
              ==> ClassFine(Classes(nfa.ccls)[i].members, nfa.ecgroup[..], nfa.csize)
                  && |Classes(nfa.ccls)[i].members| <= CSIZE
  {
    var cls := Classes(nfa.ccls);
    forall i | 0 <= i < |cls|
      ensures cls[i].members == Segment(nfa.ccls.ccltbl[..], nfa.ccls.cclmap, nfa.ccls.ccllen, i + 1)
    {
      ClassMembers(nfa.ccls, i + 1);
    }
    ClassesFine(nfa.ccls.ccltbl[..], nfa.ccls.cclmap, nfa.ccls.ccllen, nfa.ccls.lastccl, nfa.ecgroup[..],
        nfa.csize, cls);
  }

  lemma NulMoved(before: seq<int>, num: seq<int>, csize: nat, numecs: nat)
    requires Ecs.Numbered(before, num, csize, numecs) && 0 < csize
    ensures Ecs.Numbered(before, num[0 := num[csize]], csize, numecs) && 1 <= numecs
    ensures 1 <= Ecs.Abs(num[csize]) <= numecs
  {
    var num' := num[0 := num[csize]];
    assert 1 <= Ecs.Abs(num[1]) <= numecs;
    forall e | 1 <= e <= numecs ensures Ecs.Used(num', csize, e) {
      assert Ecs.Used(num, csize, e);
      var i :| 1 <= i <= csize && num[i] == e;
      assert num'[i] == e;
    }
  }

  /** Reading 0 as the number of NUL, the stored classes are the compacted ones. */
  lemma NowCompacted(cls0: seq<ClassInfo>, raw: seq<ClassInfo>, ecls: seq<ClassInfo>, before: seq<int>, num: seq<int>,
                     csize: nat, numecs: nat, nulEc: int)
    requires |raw| == |cls0| == |ecls| && Ecs.Numbered(before, num, csize, numecs) && num[0] == num[csize] && 0 < csize
    requires forall i :: 0 <= i < |cls0| ==> ClassFine(cls0[i].members, before, csize)
    requires forall i :: 0 <= i < |cls0|
               ==> raw[i] == ClassInfo(Bytes(Compact(cls0[i].members, num)), cls0[i].negated)
    requires forall i :: 0 <= i < |cls0| ==> ecls[i] == ClassInfo(Ecs.Mapped(raw[i].members, nulEc), raw[i].negated)
    requires numecs <= CSIZE && nulEc != 0 && (numecs == CSIZE ==> nulEc == CSIZE)
    ensures Compacted(cls0, ecls, num)
  {
    hide Ecs.Numbered, Bytes, Compact, Ecs.Mapped, Ccl.Whole;
    forall i | 0 <= i < |cls0| ensures ecls[i] == ClassInfo(Compact(cls0[i].members, num), cls0[i].negated) {
      assert ClassFine(cls0[i].members, before, csize);
      CompactAscends(cls0[i].members, num, before, csize, numecs);
      BytesMapped(Compact(cls0[i].members, num), numecs, nulEc);
    }
  }

  lemma NfaFacts(nfa: NfaBuilder)
    requires nfa.Valid()
    ensures Sized(nfa.State().net) && Ecs.WellLinked(nfa.nextecm[..], nfa.ecgroup[..], nfa.csize)
    ensures CharsApart(nfa.transchar, nfa.lastnfa, nfa.ccls.lastccl, nfa.ecgroup[..], nfa.csize) && nfa.ccls.Valid()
    ensures nfa.nextecm != nfa.ecgroup && nfa.ccls.ccltbl != nfa.ecgroup && nfa.ecgroup.Length == CSIZE + 1
            && nfa.cclflags.Length == CSIZE
    ensures nfa.ccls.ccltbl != nfa.nextecm && nfa.ccls.ccltbl != nfa.cclflags && nfa.cclflags != nfa.ecgroup
    ensures (nfa.csize == 128 || nfa.csize == CSIZE) && forall q :: 0 <= q < nfa.cclflags.Length
                                                          ==> nfa.cclflags[q] == 0
    ensures 0 <= nfa.lastnfa < MARKER_DIFFERENCE
  {}

  /** Every character is alone on its list. */
  predicate Alone(ecgroup: seq<int>, csize: int) {
    forall i :: 1 <= i <= csize && i < |ecgroup| ==> ecgroup[i] == 0
  }

  /** All characters are on one list. */
  ghost predicate Unsplit(bck: seq<int>, csize: int) {
    forall c, d :: 0 <= c < csize && 0 <= d < csize ==> OneList(bck, csize, c, d)
  }

  /** Characters have the same number exactly when they were on one list. */
  ghost predicate EcsFollow(before: seq<int>, num: seq<int>, csize: int) {
    && csize <= |num|
    && forall c, d :: 0 <= c < csize && 0 <= d < csize ==> (Ec(num, c) == Ec(num, d) <==> OneList(before, csize, c, d))
  }

  lemma NumberedFollow(before: seq<int>, num: seq<int>, csize: nat, numecs: nat)
    requires Ecs.Numbered(before, num, csize, numecs) && num[0] == num[csize] && 0 < csize
    ensures EcsFollow(before, num, csize)
  {
    forall c, d | 0 <= c < csize && 0 <= d < csize ensures Ec(num, c) == Ec(num, d) <==> OneList(before, csize, c, d) {
      var x, y := Ecs.MapNul(c, csize), Ecs.MapNul(d, csize);
      assert Ec(num, c) == Ecs.Abs(num[x]) && Ec(num, d) == Ecs.Abs(num[y]);
    }
  }

  /** There is one class exactly when the partition has one list. */
  lemma OneEc(before: seq<int>, num: seq<int>, csize: nat, numecs: nat)
    requires Ecs.Numbered(before, num, csize, numecs) && num[0] == num[csize] && 0 < csize
    ensures numecs == 1 <==> Unsplit(before, csize)
  {
    NumberedFollow(before, num, csize, numecs);
    if numecs == 1 {
      forall c, d | 0 <= c < csize && 0 <= d < csize ensures OneList(before, csize, c, d) {
        assert 1 <= Ecs.Abs(num[Ecs.MapNul(c, csize)]) <= 1 && 1 <= Ecs.Abs(num[Ecs.MapNul(d, csize)]) <= 1;
        assert Ec(num, c) == Ec(num, d);
      }
    } else {
      assert 1 <= Ecs.Abs(num[csize]) <= numecs;
      assert Ecs.Used(num, csize, 1) && Ecs.Used(num, csize, 2);
      var x :| 1 <= x <= csize && num[x] == 1;
      var y :| 1 <= y <= csize && num[y] == 2;
      var c, d := if x == csize then 0 else x, if y == csize then 0 else y;
      assert Ec(num, c) != Ec(num, d);
      assert !OneList(before, csize, c, d);
    }
  }

  /** A character is alone on its list exactly when no other is on it. */
  lemma AloneApart(fwd: seq<int>, bck: seq<int>, csize: nat)
    requires Ecs.WellLinked(fwd, bck, csize) && 0 < csize
    ensures Alone(bck, csize)
            <==> forall c, d :: 0 <= c < csize && 0 <= d < csize && c != d ==> !OneList(bck, csize, c, d)
  {
    if Alone(bck, csize) {
      forall c, d | 0 <= c < csize && 0 <= d < csize && c != d ensures !OneList(bck, csize, c, d) {
        assert Ecs.Head(bck, Ecs.MapNul(c, csize)) == Ecs.MapNul(c, csize);
        assert Ecs.Head(bck, Ecs.MapNul(d, csize)) == Ecs.MapNul(d, csize);
      }
    } else {
      var i :| 1 <= i <= csize && i < |bck| && bck[i] != 0;
      assert Ecs.Same(bck, i, bck[i]);
      assert OneList(bck, csize, if i == csize then 0 else i, bck[i]);
    }
  }

  /** There are as many classes as characters exactly when every character is alone on its list. */
  lemma LonesAre(before: seq<int>, num: seq<int>, csize: nat, numecs: nat)
    requires Ecs.Numbered(before, num, csize, numecs) && csize >= 1
    ensures numecs == csize <==> Alone(before, csize)
    ensures numecs == csize ==> forall i :: 1 <= i <= csize ==> num[i] == i
  {
    Ecs.AllAlone(before, num, csize, numecs);
  }

  // ----- what the rules say about the classes

  /** Two characters have the same class exactly when no rule tells them apart. */
  ghost predicate EcsAsTold(num: seq<int>, csize: int, rules: seq<Rule>) {
    && csize <= |num|
    && forall c, d :: 0 <= c < csize && 0 <= d < csize ==> (Ec(num, c) == Ec(num, d) <==> !ToldApart(rules, c, d))
  }

  /** The rules tell all characters apart. */
  ghost predicate AllTold(rules: seq<Rule>, csize: int) {
    forall c, d :: 0 <= c < csize && 0 <= d < csize && c != d ==> ToldApart(rules, c, d)
  }

  /** The rules tell no characters apart. */
  ghost predicate NoneTold(rules: seq<Rule>, csize: int) {
    forall c, d :: 0 <= c < csize && 0 <= d < csize ==> !ToldApart(rules, c, d)
  }

  lemma RulesDecide(before: seq<int>, num: seq<int>, csize: int, numecs: int, rules: seq<Rule>)
    requires AsTold(before, csize, rules) && EcsFollow(before, num, csize) && (numecs == 1 <==> Unsplit(before, csize))
    requires numecs == csize
             <==> forall c, d :: 0 <= c < csize && 0 <= d < csize && c != d ==> !OneList(before, csize, c, d)
    ensures EcsAsTold(num, csize, rules)
    ensures (numecs == csize <==> AllTold(rules, csize)) && (numecs == 1 <==> NoneTold(rules, csize))
  {
    hide OneList, ToldApart, Ec;
    forall c, d | 0 <= c < csize && 0 <= d < csize ensures Ec(num, c) == Ec(num, d) <==> !ToldApart(rules, c, d) {
      assert OneList(before, csize, c, d) <==> !ToldApart(rules, c, d);
    }
  }

  /** The end of readin: the lists of characters become numbered classes, and the character classes are compacted.
      Two characters have the same number exactly when they were on one list. */
  method NumberClasses(nfa: NfaBuilder) returns (numecs: int, nulEc: int)
    requires nfa.Valid()
    modifies nfa.ecgroup, nfa.ccls`ccllen, nfa.ccls.ccltbl
    ensures EcsFollow(old(nfa.ecgroup[..]), nfa.ecgroup[..], nfa.csize)
    ensures numecs == 1 <==> Unsplit(old(nfa.ecgroup[..]), nfa.csize)
    ensures numecs == nfa.csize <==> forall c, d :: 0 <= c < nfa.csize && 0 <= d < nfa.csize && c != d
                                       ==> !OneList(old(nfa.ecgroup[..]), nfa.csize, c, d)
    ensures nfa.ccls.Valid() && forall q :: 0 <= q < nfa.cclflags.Length ==> nfa.cclflags[q] == 0
    ensures 0 < numecs <= nfa.csize && nulEc == Ec(nfa.ecgroup[..], 0)
    ensures Numbers(nfa.State().net, nfa.ecgroup[..], old(nfa.ecgroup[..]), nfa.csize, numecs,
                    old(Classes(nfa.ccls)), EcClasses(nfa.ccls, nulEc))
  {
    hide NfaBuilder.Valid, Ecs.WellLinked, Ecs.Numbered, CharsApart, ClassFine, Compact, Compacted, CclTable.Members,
         Bytes, EcClasses, EcsFollow, Unsplit, OneList, Alone, Inside, InfoBelow;
    ghost var cls0, before := Classes(nfa.ccls), nfa.ecgroup[..];
    NfaFacts(nfa);
    AllFine(nfa);
    AloneApart(nfa.nextecm[..], before, nfa.csize);
    AllInside(nfa);
    numecs := Ecs.Cre8Ecs(nfa.nextecm, nfa.ecgroup, nfa.csize);
    LonesAre(before, nfa.ecgroup[..], nfa.csize, numecs);
    NulMoved(before, nfa.ecgroup[..], nfa.csize, numecs);
    nfa.ecgroup[0] := nfa.ecgroup[nfa.csize];
    nulEc := Ecs.Abs(nfa.ecgroup[0]);
    ghost var num := nfa.ecgroup[..];
    NumberedFollow(before, num, nfa.csize, numecs);
    OneEc(before, num, nfa.csize, numecs);
    CompactAll(nfa.ccls, nfa.ecgroup[..], nfa.csize);
    ghost var raw, ecls := Classes(nfa.ccls), EcClasses(nfa.ccls, nulEc);
    NowCompacted(cls0, raw, ecls, before, num, nfa.csize, numecs, nulEc);
    Numbering(nfa.State().net, nfa.nextecm[..], before, num, nfa.csize, numecs, cls0, ecls);
  }

  // ----- the tables

  /** The generator's last steps have everything they need. */
  ghost predicate RulesDone(s: Arrays, infos: seq<Info>, rules: seq<Rule>, starts: seq<int>, on: seq<set<int>>,
                            cls: seq<ClassInfo>, csize: int) {
    && Complete(s, infos) && Means(rules, infos, cls, csize) && AllAttached(s, starts, on, infos) && |starts| >= 1
    && s.net.last < MARKER_DIFFERENCE
  }

  lemma RulesFacts(s: Arrays, infos: seq<Info>, rules: seq<Rule>, starts: seq<int>, on: seq<set<int>>,
                   cls: seq<ClassInfo>, csize: int)
    requires RulesDone(s, infos, rules, starts, on, cls, csize)
    ensures Sane(s.net, s.accptnum, |rules|) && StartsFine(s.net, s.accptnum, starts) && |infos| == |rules|
    ensures Closed(s.net, 1, s.net.last) && Tidy(s.net, 1, s.net.last) && Lone(s.net, 1, s.net.last)
            && Onward(s.net, 1, s.net.last, 0, 0)
  {
    CompleteSane(s, infos);
    AttachedStarts(s, starts, on, infos);
  }

  /** The records and rows, once the worklist is empty. */
  lemma RecordsDone(n: Net, acc: seq<int>, dss: seq<seq<int>>, dfasiz: seq<int>, dhash: seq<int>, dfaacc: seq<int>)
    requires Interned(n, acc, dss, dfasiz, dhash, dfaacc)
    ensures |dss| == |dfaacc| && forall i :: 1 <= i < |dss| ==> InNet(n, dss[i]) && Lowest(acc, dss[i], dfaacc[i])
  {
    hide SumIn, Lowest;
    forall i | 1 <= i < |dss| ensures InNet(n, dss[i]) && Lowest(acc, dss[i], dfaacc[i]) {
      assert RecordOk(n, acc, dss[i], dhash[i], dfaacc[i]);
    }
  }

  /** genecs: yy_ec lists the class numbers without the sign that marks a representative; NUL has class 0. */
  method GenEcs(ecgroup: array<int>, csize: nat) returns (yyEc: seq<int>)
    requires 0 < csize < ecgroup.Length
    modifies ecgroup
    ensures |yyEc| == csize && yyEc[0] == 0 && forall ch :: 1 <= ch < csize ==> yyEc[ch] == Ec(old(ecgroup[..]), ch)
  {
    yyEc := [0];
    var i := 1;
    while i < csize
      invariant 1 <= i <= csize && |yyEc| == i && yyEc[0] == 0
      invariant forall ch :: 1 <= ch < i ==> yyEc[ch] == Ec(old(ecgroup[..]), ch)
      invariant forall ch :: i <= ch < ecgroup.Length ==> ecgroup[ch] == old(ecgroup[ch])
    {
      ecgroup[i] := Ecs.Abs(ecgroup[i]);
      yyEc := yyEc + [ecgroup[i]];
      i := i + 1;
    }
  }

  /** What ntod starts from. */
  ghost predicate Prepared(n: Net, acc: seq<int>, numRules: int, starts: seq<int>, num: seq<int>, cls: seq<ClassInfo>,
                           csize: int, numecs: nat) {
    && 1 <= numecs <= csize && EcClassesOk(cls, numecs) && LabelsOk(n, num, |cls|, csize, numecs)
    && (csize == 128 || csize == CSIZE) && |num| == CSIZE + 1 && num[0] == num[csize]
    && (numecs == csize ==> num[csize] == csize)
    && Sane(n, acc, numRules) && 0 <= numRules && StartsFine(n, acc, starts)
    && Closed(n, 1, n.last) && Tidy(n, 1, n.last) && Lone(n, 1, n.last) && Onward(n, 1, n.last, 0, 0)
  }

  ghost predicate Ready(nfa: NfaBuilder)
    reads nfa, nfa.ccls, nfa.cclflags
  {
    nfa.Sizes() && nfa.Separate() && nfa.ccls.Valid() && forall q :: 0 <= q < nfa.cclflags.Length
                                                           ==> nfa.cclflags[q] == 0
  }

  method Prepare(nfa: NfaBuilder, numRules: int, ghost starts: seq<int>, numecs: nat, nulEc: int, usemecs: bool,
                 fullspd: bool)
    returns (dfa: DfaBuilder)
    requires Ready(nfa) && Prepared(nfa.State().net, nfa.accptnum, numRules, starts, nfa.ecgroup[..],
             EcClasses(nfa.ccls, nulEc), nfa.csize, numecs)
    requires nulEc == Ec(nfa.ecgroup[..], 0)
    ensures dfa.Valid() && dfa.Clear() && dfa.lastdfa == 0 && dfa.comp.rows == [] && dfa.comp.temps == []
            && dfa.comp.eob == 0
    ensures fresh(dfa) && fresh(dfa.sets) && fresh({dfa.sets.nset, dfa.sets.stk, dfa.sets.accset, dfa.sets.trans1})
            && fresh(dfa.Locals)
    ensures fresh(dfa.comp.Repr) && dfa.syms.cclflags == nfa.cclflags && dfa.syms.numecs == numecs
    ensures dfa.Nfa() == nfa.State().net && dfa.sets.accptnum == nfa.accptnum && dfa.num == nfa.ecgroup[..]
            && dfa.cls == EcClasses(nfa.ccls, nulEc)
    ensures dfa.made.rows == [] && dfa.made.nultrans == [0] && fresh(dfa.made)
    ensures dfa.fullspd == fullspd && (dfa.useNul <==> !fullspd && numecs == nfa.csize)
  {
    hide *;
    Usable(nfa, numRules, starts, numecs, nulEc);
    nfa.StateIs();
    var sets := new StateSet(Net(nfa.lastnfa, nfa.transchar, nfa.trans1, nfa.trans2), nfa.accptnum, numRules);
    var syms := new Symbols(nfa.ccls, nfa.ecgroup, nfa.cclflags, nfa.csize, numecs, nulEc);
    var comp := Compressor.Create(numecs, usemecs);
    syms.NumbersAre();
    dfa := new DfaBuilder(sets, syms, comp, fullspd);
    dfa.NfaIs();
    dfa.AllApart();
    Assembled(dfa, numRules, starts);
  }

  lemma Assembled(dfa: DfaBuilder, numRules: int, starts: seq<int>)
    requires dfa.Separate() && dfa.sets.Valid() && dfa.syms.Valid() && dfa.comp.Valid() && dfa.Records()
    requires dfa.Lists() && dfa.lastdfa == 0 && forall e :: 0 <= e <= CSIZE ==> dfa.symlist[e] == 0
    requires dfa.syms.numecs == dfa.comp.numecs && 0 < |dfa.comp.x.base|
    requires dfa.syms.Num() == dfa.num == dfa.syms.ecgroup[..] && dfa.syms.Cls() == dfa.cls
             && dfa.syms.ccls.lastccl == |dfa.cls|
    requires Prepared(dfa.Nfa(), dfa.sets.accptnum, numRules, starts, dfa.num, dfa.cls, dfa.syms.csize, dfa.syms.numecs)
    requires dfa.syms.nulEc == Ec(dfa.num, 0) && dfa.syms.ecgroup.Length > 0
    requires dfa.useNul <==> !dfa.fullspd && dfa.syms.ecgroup[0] == dfa.syms.numecs == dfa.syms.csize
    ensures dfa.Valid() && dfa.Clear() && (dfa.useNul <==> !dfa.fullspd && dfa.syms.numecs == dfa.syms.csize)
  {
    hide *;
    dfa.ClearNow();
    NoRecords(dfa);
    NfaIsFine(dfa, numRules, starts);
    dfa.Together();
  }

  lemma Usable(nfa: NfaBuilder, numRules: int, starts: seq<int>, numecs: nat, nulEc: int)
    requires Ready(nfa) && Prepared(nfa.State().net, nfa.accptnum, numRules, starts, nfa.ecgroup[..],
             EcClasses(nfa.ccls, nulEc), nfa.csize, numecs)
    ensures Sane(nfa.State().net, nfa.accptnum, numRules) && 0 <= numRules && 1 <= numecs <= CSIZE
    ensures nfa.ccls.Valid() && (nfa.csize == 128 || nfa.csize == CSIZE) && nfa.ecgroup.Length == CSIZE + 1
            && nfa.cclflags.Length == CSIZE
    ensures nfa.cclflags != nfa.ecgroup && nfa.cclflags != nfa.ccls.ccltbl
    ensures forall q :: 0 <= q < nfa.cclflags.Length ==> nfa.cclflags[q] == 0
    ensures EcClassesOk(EcClasses(nfa.ccls, nulEc), numecs)
    ensures nfa.ecgroup.Length > 0 && (numecs == nfa.csize ==> nfa.ecgroup[0] == nfa.csize)
  {
    hide Sane, StartsFine, LabelsOk, EcClassesOk, Closed, Tidy, Lone, Onward, EcClasses;
    assert nfa.ecgroup[..][0] == nfa.ecgroup[..][nfa.csize];
  }

  lemma NfaIsFine(dfa: DfaBuilder, numRules: int, starts: seq<int>)
    requires Prepared(dfa.Nfa(), dfa.sets.accptnum, numRules, starts, dfa.num, dfa.cls, dfa.syms.csize, dfa.syms.numecs)
    requires dfa.num == dfa.syms.ecgroup[..] && dfa.syms.nulEc == Ec(dfa.num, 0)
    requires dfa.syms.ecgroup.Length > 0
    requires dfa.useNul <==> !dfa.fullspd && dfa.syms.ecgroup[0] == dfa.syms.numecs == dfa.syms.csize
    ensures dfa.NfaFine() && (dfa.useNul <==> !dfa.fullspd && dfa.syms.numecs == dfa.syms.csize)
  {
    hide Sane, StartsFine, LabelsOk, EcClassesOk, Closed, Tidy, Lone, Onward;
  }

  lemma NoRecords(dfa: DfaBuilder)
    requires dfa.Records()
    ensures |dfa.dss| == dfa.lastdfa + 1
  {}

  /** What ntod leaves. */
  ghost predicate Determined(n: Net, acc: seq<int>, starts: seq<int>, num: seq<int>, cls: seq<ClassInfo>, numecs: nat,
                             dss: seq<seq<int>>, dfaacc: seq<int>, rows: seq<seq<int>>, lastdfa: int) {
    && |dss| == |dfaacc| == lastdfa + 1 && |starts| <= lastdfa == |rows|
    && RowsOk(n, acc, num, cls, dss, rows, numecs) && Primed(n, acc, dss, starts, |starts|)
    && AllLedTo(rows, |starts|, |starts|, |dss|, numecs)
    && forall i :: 1 <= i < |dss| ==> InNet(n, dss[i]) && Lowest(acc, dss[i], dfaacc[i])
  }

  /** What ntod leaves when it runs out of templates. */
  ghost predicate OutOfTemplates(n: Net, acc: seq<int>, starts: seq<int>, num: seq<int>, cls: seq<ClassInfo>,
                                 numecs: nat, dss: seq<seq<int>>, rows: seq<seq<int>>) {
    && RowsOk(n, acc, num, cls, dss, rows, numecs) && Primed(n, acc, dss, starts, |starts|)
    && AllLedTo(rows, |starts|, |starts|, |dss|, numecs) && -JAMSTATE <= WideRows(rows, numecs) + 1
  }

  /** ntod on a fresh DFA. */
  method BuildDfa(nfa: NfaBuilder, numRules: int, starts: seq<int>, numecs: nat, nulEc: int, usemecs: bool)
    returns (r: Result<DfaBuilder>, ghost dss: seq<seq<int>>, ghost rows: seq<seq<int>>)
    requires Ready(nfa) && Prepared(nfa.State().net, nfa.accptnum, numRules, starts, nfa.ecgroup[..],
             EcClasses(nfa.ccls, nulEc), nfa.csize, numecs)
    requires nulEc == Ec(nfa.ecgroup[..], 0)
    modifies nfa.cclflags
    ensures r.Failure? ==> r.error == TooManyTemplates
                           && OutOfTemplates(nfa.State().net, nfa.accptnum, starts, nfa.ecgroup[..],
                                             EcClasses(nfa.ccls, nulEc), numecs, dss, rows)
    ensures r.Success? ==> fresh(r.value.comp.Repr) && r.value.comp.Valid() && r.value.comp.numecs == numecs
    ensures r.Success? ==> r.value.comp.eob == |starts| && |r.value.comp.temps| <= |r.value.comp.rows|
    ensures r.Success? ==> Determined(nfa.State().net, nfa.accptnum, starts, nfa.ecgroup[..],
                                      EcClasses(nfa.ccls, nulEc), numecs,
                                      r.value.dss, r.value.dfaacc, r.value.made.rows, r.value.lastdfa)
    ensures r.Success? ==> NulDone(r.value, numecs, nfa.csize)
                           && fresh(r.value.made) && r.value.made !in r.value.comp.Repr
  {
    hide *;
    PreparedStarts(nfa.State().net, nfa.accptnum, numRules, starts, nfa.ecgroup[..], EcClasses(nfa.ccls, nulEc),
        nfa.csize, numecs);
    ReadyApart(nfa);
    var dfa := Prepare(nfa, numRules, starts, numecs, nulEc, usemecs, false);
    var done := dfa.Ntod(starts);
    dss, rows := dfa.dss, dfa.made.rows;
    if done.Failure? {
      OutNow(dfa.Nfa(), dfa.sets.accptnum, starts, dfa.num, dfa.cls, numecs, dss, rows);
      return Failure(done.error), dss, rows;
    }
    NtodDone(dfa, starts, nfa.csize);
    return Success(dfa), dss, rows;
  }

  lemma OutNow(n: Net, acc: seq<int>, starts: seq<int>, num: seq<int>, cls: seq<ClassInfo>, numecs: nat,
               dss: seq<seq<int>>, rows: seq<seq<int>>)
    requires RowsOk(n, acc, num, cls, dss, rows, numecs) && Primed(n, acc, dss, starts, |starts|)
    requires AllLedTo(rows, |starts|, |starts|, |dss|, numecs) && -JAMSTATE <= WideRows(rows, numecs) + 1
    ensures OutOfTemplates(n, acc, starts, num, cls, numecs, dss, rows)
  {}

  lemma NtodDone(dfa: DfaBuilder, starts: seq<int>, csize: int)
    requires dfa.Valid() && dfa.Tabled() && |starts| <= dfa.lastdfa == |dfa.comp.rows| == |dfa.made.rows|
    requires RowsOk(dfa.Nfa(), dfa.sets.accptnum, dfa.num, dfa.cls, dfa.dss, dfa.made.rows, dfa.syms.numecs)
    requires Primed(dfa.Nfa(), dfa.sets.accptnum, dfa.dss, starts, |starts|)
    requires AllLedTo(dfa.made.rows, |starts|, |starts|, |dfa.dss|, dfa.syms.numecs)
    requires dfa.useNul <==> dfa.syms.numecs == csize
    ensures dfa.comp.Valid() && dfa.comp.numecs == dfa.syms.numecs && NulDone(dfa, dfa.syms.numecs, csize)
    ensures Determined(dfa.Nfa(), dfa.sets.accptnum, starts, dfa.num, dfa.cls, dfa.syms.numecs, dfa.dss, dfa.dfaacc,
                       dfa.made.rows, dfa.lastdfa)
    ensures dfa.made !in dfa.comp.Repr
  {
    hide RowsOk, Primed, Interned, Compressor.Valid, Symbols.Valid, StateSet.Valid, DfaBuilder.NfaFine, Parted, AllLive;
    RecordsDone(dfa.Nfa(), dfa.sets.accptnum, dfa.dss, dfa.dfasiz, dfa.dhash, dfa.dfaacc);
  }

  /** What ntod has done with the transitions on NUL. */
  ghost predicate NulDone(dfa: DfaBuilder, numecs: nat, csize: int)
    reads dfa.made, dfa.comp, dfa.comp.x
  {
    && (dfa.useNul <==> numecs == csize)
    && Parted(dfa.made.rows, dfa.comp.rows, dfa.made.nultrans, dfa.useNul, numecs)
    && AllLive(dfa.made.rows, dfa.comp.x.Entries(), numecs)
  }

  lemma ReadyApart(nfa: NfaBuilder)
    requires Ready(nfa)
    ensures nfa.cclflags != nfa.ecgroup && nfa.cclflags != nfa.ccls.ccltbl
  {}

  lemma PreparedStarts(n: Net, acc: seq<int>, numRules: int, starts: seq<int>, num: seq<int>, cls: seq<ClassInfo>,
                       csize: int, numecs: nat)
    requires Prepared(n, acc, numRules, starts, num, cls, csize, numecs)
    ensures StartsFine(n, acc, starts)
  {}

  // ----- the scanner

  /** What is known of a finished scanner before its tables are written. */
  ghost predicate Built(b: Build) {
    && RulesDone(b.s, b.infos, b.rules, b.starts, b.on, b.cls, b.csize)
    && Numbers(b.s.net, b.num, b.before, b.csize, b.numecs, b.cls, b.ecls)
    && Determined(b.s.net, b.s.accptnum, b.starts, b.num, b.ecls, b.numecs, b.dss, b.dfaacc, b.rows, |b.rows|)
       && b.eob == |b.starts|
  }

  lemma BuiltSides(b: Build)
    requires Built(b)
    ensures NfaSide(b) && DfaSide(b)
  {
    hide Complete, Means, AllAttached, Abstracts, RowsOk, Primed, InNet, Lowest, LabelsOk, EcClassesOk;
  }

  lemma BuiltReached(b: Build)
    requires Built(b)
    ensures AllReached(b)
  {
    hide RulesDone, Numbers, RowsOk, Primed, InNet, Lowest, AllLedTo, NfaSide, DfaSide, AllReached;
    BuiltSides(b);
    EveryState(b);
  }

  lemma BuiltTables(b: Build, t: ScanTables, yyEc: seq<int>)
    requires Built(b) && Holds(t, b.states, b.entries, b.kept, b.temps, b.tnum, b.eob, b.numecs)
    requires Parted(b.rows, b.kept, b.nultrans, b.useNul, b.numecs) && AllLive(b.rows, b.states, b.numecs)
    requires b.useNul <==> b.numecs == b.csize
    requires |t.accept| == |b.rows| + 2 && t.accept[|b.rows| + 1] == 0
    requires forall i :: 1 <= i <= |b.rows| ==> t.accept[i] == if i == b.eob then |b.rules| + 1 else b.dfaacc[i]
    requires |yyEc| == b.csize && yyEc[0] == 0 && forall ch :: 1 <= ch < b.csize ==> yyEc[ch] == Ec(b.num, ch)
    ensures TableSide(b, t, yyEc)
  {
    HoldsSizes(t, b.states, b.entries, b.kept, b.temps, b.tnum, b.eob, b.numecs);
    PartedSizes(b.rows, b.kept, b.nultrans, b.useNul, b.numecs);
    hide Holds, RulesDone, Parted, AllLive;
    EcsPositive(b.s.net, b.num, b.before, b.csize, b.numecs, b.cls, b.ecls);
    if b.useNul {
      AloneEcs(b.s.net, b.num, b.before, b.csize, b.numecs, b.cls, b.ecls);
    }
  }

  /** Where every character is alone only NUL has the last number. */
  lemma AloneEcs(n: Net, num: seq<int>, before: seq<int>, csize: nat, numecs: nat, cls: seq<ClassInfo>,
                 ecls: seq<ClassInfo>)
    requires Numbers(n, num, before, csize, numecs, cls, ecls) && numecs == csize
    ensures forall ch :: 0 <= ch < csize ==> (Ec(num, ch) == numecs <==> ch == 0)
  {
    hide LabelsOk, EcClassesOk;
    assert num[csize] == csize && num[0] == num[csize];
    forall ch | 0 <= ch < csize ensures Ec(num, ch) == numecs <==> ch == 0 {
      if ch > 0 { assert num[ch] == ch; }
    }
  }

  lemma HoldsSizes(t: ScanTables, states: map<int, Entry>, entries: map<int, Entry>, rows: seq<seq<int>>,
                   temps: seq<seq<int>>, num: seq<int>, eob: int, numecs: nat)
    requires Holds(t, states, entries, rows, temps, num, eob, numecs)
    ensures t.jamstate == |rows| + 1
  {}

  /** The rules allow so many texts with so many characters behind them that templates can run out. */
  ghost predicate Bursts(rules: seq<Rule>, on: seq<set<int>>, csize: int) {
    exists numecs: nat :: 1 <= numecs && (numecs == csize <==> AllTold(rules, csize))
                          && TooCrowded(rules, on, csize, numecs)
  }

  lemma RowsBurst(b: Build)
    requires RulesDone(b.s, b.infos, b.rules, b.starts, b.on, b.cls, b.csize)
    requires Numbers(b.s.net, b.num, b.before, b.csize, b.numecs, b.cls, b.ecls)
    requires OutOfTemplates(b.s.net, b.s.accptnum, b.starts, b.num, b.ecls, b.numecs, b.dss, b.rows)
    requires b.eob == |b.starts| && (b.numecs == b.csize <==> AllTold(b.rules, b.csize))
    ensures AllInhabited(b.rules, b.csize) ==> Bursts(b.rules, b.on, b.csize)
  {
    hide AllInhabited, TooCrowded, AllTold;
    RulesNfa(b);
    if AllInhabited(b.rules, b.csize) { Crowds(b); }
  }

  lemma RulesNfa(b: Build)
    requires RulesDone(b.s, b.infos, b.rules, b.starts, b.on, b.cls, b.csize)
    requires Numbers(b.s.net, b.num, b.before, b.csize, b.numecs, b.cls, b.ecls)
    requires OutOfTemplates(b.s.net, b.s.accptnum, b.starts, b.num, b.ecls, b.numecs, b.dss, b.rows)
             && b.eob == |b.starts|
    ensures NfaSide(b) && RowsSide(b) && |b.on| == |b.starts|
    ensures AllLedTo(b.rows, |b.starts|, b.eob, |b.dss|, b.numecs) && 1 <= b.numecs
            && -JAMSTATE <= WideRows(b.rows, b.numecs) + 1
  {
    hide Complete, Means, Attached, Abstracts, RowsOk, Primed, LabelsOk, EcClassesOk, AllLedTo;
  }

  lemma NfaReady(nfa: NfaBuilder)
    requires nfa.Valid()
    ensures nfa.Sizes() && nfa.Separate()
  {}

  lemma NumbersFacts(n: Net, num: seq<int>, before: seq<int>, csize: nat, numecs: nat, cls: seq<ClassInfo>,
                     ecls: seq<ClassInfo>)
    requires Numbers(n, num, before, csize, numecs, cls, ecls)
    ensures LabelsOk(n, num, |ecls|, csize, numecs) && EcClassesOk(ecls, numecs) && 1 <= numecs <= csize
    ensures (csize == 128 || csize == CSIZE) && |num| == CSIZE + 1 && num[0] == num[csize]
            && (numecs == csize ==> num[csize] == csize)
  {}

  /** From the NFA with its start states to the scanner. */
  method MakeLexer(nfa: NfaBuilder, numRules: int, starts: seq<int>, usemecs: bool, ghost infos: seq<Info>,
                   ghost rules: seq<Rule>, ghost on: seq<set<int>>)
    returns (r: Result<Lexer>)
    requires nfa.Valid() && numRules == |rules| && AsTold(nfa.ecgroup[..], nfa.csize, rules)
    requires RulesDone(nfa.State(), infos, rules, starts, on, Classes(nfa.ccls), nfa.csize)
    modifies nfa.ecgroup, nfa.cclflags, nfa.ccls`ccllen, nfa.ccls.ccltbl
    ensures r.Failure? ==> r.error == TooManyTemplates
    ensures r.Failure? && AllInhabited(rules, nfa.csize) ==> Bursts(rules, on, nfa.csize)
    ensures r.Success? ==> r.value.Valid() && r.value.b.rules == rules && r.value.b.on == on
                           && r.value.b.csize == nfa.csize && r.value.b.starts == starts
    ensures r.Success? ==> EcsAsTold(r.value.b.num, nfa.csize, rules) && AllReached(r.value.b)
    ensures r.Success? ==> (r.value.b.useNul <==> AllTold(rules, nfa.csize))
    ensures r.Success? ==> (r.value.b.useNul <==> r.value.b.numecs == r.value.b.csize)
  {
    hide *;
    NfaReady(nfa);
    ghost var cls, before := Classes(nfa.ccls), nfa.ecgroup[..];
    var numecs, nulEc := NumberClasses(nfa);
    ghost var s, num, ecls := nfa.State(), nfa.ecgroup[..], EcClasses(nfa.ccls, nulEc);
    RulesDecide(before, num, nfa.csize, numecs, rules);
    RulesFacts(s, infos, rules, starts, on, cls, nfa.csize);
    NumbersFacts(s.net, num, before, nfa.csize, numecs, cls, ecls);
    NowPrepared(s.net, s.accptnum, numRules, starts, num, ecls, nfa.csize, numecs);
    NowReady(nfa);
    ReadyApart(nfa);
    StateIs(nfa);
    var made, dss0, rows0 := BuildDfa(nfa, numRules, starts, numecs, nulEc, usemecs);
    if made.Failure? {
      RowsBurst(Build(s, num, before, nfa.csize, numecs, cls, ecls, infos, rules, starts, on, dss0, [], rows0, [],
                      false, [], |starts|, map[], map[], [], []));
      return Failure(made.error);
    }
    var dfa := made.value;
    NulDoneIs(dfa, numecs, nfa.csize);
    ghost var dss, dfaacc := dfa.dss, dfa.dfaacc;
    ghost var rows, kept, temps, states := dfa.made.rows, dfa.comp.rows, dfa.comp.temps, dfa.comp.x.Entries();
    DeterminedSizes(s.net, s.accptnum, starts, num, ecls, numecs, dss, dfaacc, rows, dfa.lastdfa);
    PartedSizes(rows, kept, dfa.made.nultrans, dfa.useNul, numecs);
    var t;
    ghost var entries, tnum;
    t, entries, tnum := MakeTables(dfa.comp, dfa.lastdfa, |starts|, dfa.dfaacc, numRules);
    var yyEc := GenEcs(nfa.ecgroup, nfa.csize);
    ghost var b := Build(s, num, before, nfa.csize, numecs, cls, ecls, infos, rules, starts, on, dss, dfaacc, rows,
                         kept, dfa.useNul, dfa.made.nultrans, |starts|, states, entries, temps, tnum);
    NowBuilt(b);
    BuiltSides(b);
    BuiltReached(b);
    BuiltTables(b, t, yyEc);
    var lexer := new Lexer(t, yyEc, nulEc, dfa.useNul, dfa.made.nultrans, numRules, b);
    return Success(lexer);
  }

  lemma NowReady(nfa: NfaBuilder)
    requires nfa.Sizes() && nfa.Separate() && nfa.ccls.Valid() && forall q :: 0 <= q < nfa.cclflags.Length
                                                                     ==> nfa.cclflags[q] == 0
    ensures Ready(nfa)
  {}

  lemma StateIs(nfa: NfaBuilder)
    ensures nfa.State().accptnum == nfa.accptnum
  {}

  lemma NulDoneIs(dfa: DfaBuilder, numecs: nat, csize: int)
    requires NulDone(dfa, numecs, csize)
    ensures dfa.useNul <==> numecs == csize
    ensures Parted(dfa.made.rows, dfa.comp.rows, dfa.made.nultrans, dfa.useNul, numecs)
    ensures AllLive(dfa.made.rows, dfa.comp.x.Entries(), numecs)
  {
    hide Parted, AllLive;
  }

  lemma NowBuilt(b: Build)
    requires RulesDone(b.s, b.infos, b.rules, b.starts, b.on, b.cls, b.csize)
    requires Numbers(b.s.net, b.num, b.before, b.csize, b.numecs, b.cls, b.ecls)
    requires Determined(b.s.net, b.s.accptnum, b.starts, b.num, b.ecls, b.numecs, b.dss, b.dfaacc, b.rows, |b.rows|)
             && b.eob == |b.starts|
    ensures Built(b)
  {}

  lemma NowPrepared(n: Net, acc: seq<int>, numRules: int, starts: seq<int>, num: seq<int>, cls: seq<ClassInfo>,
                    csize: int, numecs: nat)
    requires 1 <= numecs <= csize && EcClassesOk(cls, numecs) && LabelsOk(n, num, |cls|, csize, numecs)
    requires (csize == 128 || csize == CSIZE) && |num| == CSIZE + 1 && num[0] == num[csize]
             && (numecs == csize ==> num[csize] == csize)
    requires Sane(n, acc, numRules) && 0 <= numRules && StartsFine(n, acc, starts)
    requires Closed(n, 1, n.last) && Tidy(n, 1, n.last) && Lone(n, 1, n.last) && Onward(n, 1, n.last, 0, 0)
    ensures Prepared(n, acc, numRules, starts, num, cls, csize, numecs)
  {}

  lemma DeterminedSizes(n: Net, acc: seq<int>, starts: seq<int>, num: seq<int>, cls: seq<ClassInfo>, numecs: nat,
                        dss: seq<seq<int>>, dfaacc: seq<int>, rows: seq<seq<int>>, lastdfa: int)
    requires Determined(n, acc, starts, num, cls, numecs, dss, dfaacc, rows, lastdfa)
    ensures |dfaacc| == lastdfa + 1 && lastdfa == |rows| && 1 <= |starts|
  {}

  /** The default rule, the last one, matches every single character in every start state. */
  lemma DefaultEverywhere(b: Build, rules: seq<Rule>, scxclu: seq<bool>, lastsc: nat, i: int)
    requires b.rules == rules + [DefaultRule(lastsc)] && |scxclu| == lastsc + 1
    requires b.on == StartSets(b.rules, scxclu, lastsc) && 1 <= i < |b.on|
    ensures HasDefault(b, i)
  {
    var k, sc := |rules|, (i + 1) / 2;
    assert DefaultRule(lastsc).scons[sc - 1] == sc;
    assert ActiveIn(b.rules[k], sc, scxclu);
    assert k in Wanted(b.rules, scxclu, sc, false);
    assert b.on[i] == StartSet(b.rules, scxclu, i);
    forall c | 0 <= c < b.csize ensures SomeRule(b, i, [c]) {
      assert [c] in ClassChars([], true, b.csize);
      assert RuleMatches(b, i, k, [c]);
    }
  }

  /** Why no scanner is built from rules that have been read: there is no room for the default rule and the start
      states, or the parser has complained. */
  ghost predicate Unbuildable(e: Error, last: int, rules: seq<Rule>, lastsc: int) {
    || (e == TooManyRules && |rules| >= MAX_RULE)
    || (e == TooManyStates && last + 2 + 2 * lastsc > MOST_STATES)
    || (e == SyntaxError && Complained(rules))
  }

  /** Only rules like these can make so many templates. */
  ghost predicate Overloaded(rules: seq<Rule>, scxclu: seq<bool>, lastsc: nat, csize: int) {
    AllInhabited(rules, csize) ==> Bursts(rules, StartSets(rules, scxclu, lastsc), csize)
  }

  ghost predicate Buildable(last: int, rules: seq<Rule>, lastsc: int) {
    |rules| < MAX_RULE && last + 2 + 2 * lastsc <= MOST_STATES && !Complained(rules)
  }

  lemma DefaultStates(lastsc: nat, scxclu: seq<bool>, csize: int)
    requires |scxclu| == lastsc + 1
    ensures RuleStates(DefaultRule(lastsc), scxclu) == 2 + lastsc && Held(Pattern(DefaultRule(lastsc)), csize)
  {}

  lemma DefaultRefused(e: Error, last: int, rules: seq<Rule>, lastsc: nat, scxclu: seq<bool>, csize: int)
    requires |scxclu| == lastsc + 1 && RuleRefused(e, last, |rules|, DefaultRule(lastsc), scxclu, csize)
    ensures Unbuildable(e, last, rules, lastsc)
  {
    DefaultStates(lastsc, scxclu, csize);
  }

  lemma DefaultRead(last: int, after: int, rules: seq<Rule>, lastsc: nat, scxclu: seq<bool>, csize: int)
    requires |scxclu| == lastsc + 1 && RuleRead(last, after, |rules|, DefaultRule(lastsc), scxclu, csize)
    ensures after == last + 2 + lastsc
    ensures after + lastsc > MOST_STATES ==> Unbuildable(TooManyStates, last, rules, lastsc)
    ensures after + lastsc <= MOST_STATES && !Complained(rules) ==> Buildable(last, rules, lastsc)
    ensures Complained(rules) ==> Unbuildable(SyntaxError, last, rules, lastsc)
  {
    DefaultStates(lastsc, scxclu, csize);
  }

  /** The whole generator: the default rule is added, the start states are made, and the scanner is built. Every
      start state of the scanner has the rules meant for its start condition, at the beginning of a line also those
      with ^; scanning with it finds the longest match, see Yylex.NextToken. */
  method BuildScanner(rs: RuleSet, usemecs: bool) returns (r: Result<Lexer>)
    requires rs.Valid()
    modifies rs.Repr, rs.nfa.ccls.ccltbl
    ensures r.Failure?
            ==> || Unbuildable(r.error, old(rs.nfa.lastnfa), old(rs.rules), old(rs.lastsc))
                || (r.error == TooManyTemplates && old(rs.lastsc) >= 0
                    && Overloaded(old(rs.rules) + [DefaultRule(old(rs.lastsc))], old(rs.scxclu), old(rs.lastsc),
                                  rs.nfa.csize))
    ensures r.Success? ==> Buildable(old(rs.nfa.lastnfa), old(rs.rules), old(rs.lastsc))
    ensures r.Success? ==> r.value.Valid() && r.value.b.csize == rs.nfa.csize && old(rs.lastsc) >= 0
    ensures r.Success? ==> r.value.b.rules == old(rs.rules) + [DefaultRule(old(rs.lastsc))]
    ensures r.Success? ==> |r.value.b.starts| == 2 * old(rs.lastsc) + 1
    ensures r.Success? ==> r.value.b.on == StartSets(r.value.b.rules, old(rs.scxclu), old(rs.lastsc))
    ensures r.Success? ==> forall i :: 1 <= i < |r.value.b.starts| ==> HasDefault(r.value.b, i)
    ensures r.Success? ==> (r.value.b.useNul <==> r.value.b.numecs == r.value.b.csize)
    ensures r.Success? ==> EcsAsTold(r.value.b.num, r.value.b.csize, r.value.b.rules) && AllReached(r.value.b)
    ensures r.Success? ==> (r.value.b.useNul <==> AllTold(r.value.b.rules, r.value.b.csize))
  {
    hide StartsOk, AsWanted, Means, Complete, AllAttached, NfaBuilder.CharsOk, Lexer.Valid, HasDefault,
         Proper, Wanted, RulesDone, IsAny, Complained, AsTold, EcsAsTold, AllTold, AllReached;
    ghost var rules0, lastsc, scxclu, last := rs.rules, rs.lastsc, rs.scxclu, rs.nfa.lastnfa;
    DefaultProper(lastsc);
    ComplainedMore(rules0, DefaultRule(lastsc));
    var added := rs.AddRule(DefaultRule(rs.lastsc));
    if added.Failure? {
      DefaultRefused(added.error, last, rules0, lastsc, scxclu, rs.nfa.csize);
      return Failure(added.error);
    }
    DefaultRead(last, rs.nfa.lastnfa, rules0, lastsc, scxclu, rs.nfa.csize);
    if rs.pc.syntaxerror { return Failure(SyntaxError); }
    var starts :- rs.MakeStarts();
    ghost var on := StartSets(rs.rules, scxclu, lastsc);
    NowRulesDone(rs.nfa.State(), rs.infos, rs.rules, starts, on, Classes(rs.nfa.ccls), rs.nfa.csize);
    var lexer :- MakeLexer(rs.nfa, rs.numRules, starts, usemecs, rs.infos, rs.rules, on);
    forall i | 1 <= i < |lexer.b.starts| ensures HasDefault(lexer.b, i) {
      DefaultEverywhere(lexer.b, rules0, scxclu, lastsc, i);
    }
    return Success(lexer);
  }

  lemma DefaultProper(lastsc: nat)
    ensures Proper(Pattern(DefaultRule(lastsc)))
  {}

  lemma NowRulesDone(s: Arrays, infos: seq<Info>, rules: seq<Rule>, starts: seq<int>, on: seq<set<int>>,
                     cls: seq<ClassInfo>, csize: int)
    requires Complete(s, infos) && Means(rules, infos, cls, csize) && AllAttached(s, starts, on, infos) && |starts| >= 1
    requires s.net.last < MARKER_DIFFERENCE
    ensures RulesDone(s, infos, rules, starts, on, cls, csize)
  {}
}
