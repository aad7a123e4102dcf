/** What the rows of the DFA say about the rules: after any text the DFA is in a state whose accepting number is that of
    the first rule that matches the text, and it has jammed exactly when the NFA cannot go on. */
module Scanner {
  import opened Flexdef
  import opened Nets
  import opened Machines
  import opened Nfa
  import opened Regex
  import opened Rules
  import opened Abstraction
  import opened Subsets
  import opened Closure
  import opened StateSets
  import opened Interning
  import opened Packing
  import opened Dfa
  import Ecs

  // ----- from characters to classes

  /** The class numbers of a string. */
  ghost function EcWord(num: seq<int>, w: seq<int>): (e: seq<int>)
    requires forall i :: 0 <= i < |w| ==> 0 <= w[i] < |num|
    ensures |e| == |w|
  {
    seq(|w|, i requires 0 <= i < |w| => Ec(num, w[i]))
  }

  /** What the class numbers have to do with characters and labels. */
  ghost predicate Abstracts(n: Net, num: seq<int>, before: seq<int>, csize: nat, numecs: nat, cls: seq<ClassInfo>,
                            ecls: seq<ClassInfo>) {
    && Sized(n) && 0 < csize && csize < |num| && Ecs.Numbered(before, num, csize, numecs) && num[0] == num[csize]
    && Compacted(cls, ecls, num)
    && forall s :: 1 <= s <= n.last && n.tc[s] != SYM_EPSILON ==> LabelFine(n.tc[s], before, csize, cls)
  }

  ghost predicate LabelFine(sym: int, before: seq<int>, csize: nat, cls: seq<ClassInfo>) {
    && -|cls| <= sym < csize
    && if sym >= 0 then Ccl.Whole(before, csize, [Ecs.MapNul(sym, csize)])
       else ClassFine(cls[-sym - 1].members, before, csize)
  }

  lemma EcsPositive(n: Net, num: seq<int>, before: seq<int>, csize: nat, numecs: nat, cls: seq<ClassInfo>,
                    ecls: seq<ClassInfo>)
    requires Abstracts(n, num, before, csize, numecs, cls, ecls)
    ensures forall ch :: 0 <= ch < csize ==> 1 <= Ec(num, ch) <= numecs
  {
    assert Ec(num, 0) == Ec(num, csize);
  }

  /** A walk over class numbers that ends in an epsilon state is a path whose labels read the string. */
  lemma {:induction false} WalkReads(n: Net, num: seq<int>, before: seq<int>, csize: nat, numecs: nat,
                                     cls: seq<ClassInfo>, ecls: seq<ClassInfo>, p: seq<int>, w: seq<int>)
    requires Abstracts(n, num, before, csize, numecs, cls, ecls) && |p| > 0 && !Solid(n, p[|p| - 1])
    requires forall i :: 0 <= i < |w| ==> 0 <= w[i] < csize
    ensures Walks(n, num, ecls, p, EcWord(num, w)) <==> IsPath(n, p) && ReadsAs(Word(n, p), w, cls, csize)
    decreases |p|
  {
    if |p| == 1 {
      assert Word(n, p[1..]) == [];
    } else if Solid(n, p[0]) {
      var u := Word(n, p[1..]);
      assert Word(n, p) == [n.tc[p[0]]] + u;
      if w != [] {
        StepAbstraction(n.tc[p[0]], w[0], num, before, csize, numecs, cls, ecls);
        WalkReads(n, num, before, csize, numecs, cls, ecls, p[1..], w[1..]);
        assert EcWord(num, w)[1..] == EcWord(num, w[1..]);
        ReadsCons(n.tc[p[0]], u, w, cls, csize);
      }
    } else {
      WalkReads(n, num, before, csize, numecs, cls, ecls, p[1..], w);
      assert Word(n, p) == Word(n, p[1..]);
    }
  }

  lemma ReadsCons(sym: int, u: seq<int>, w: seq<int>, cls: seq<ClassInfo>, csize: int)
    requires w != []
    ensures ReadsAs([sym] + u, w, cls, csize) <==> Matches(sym, w[0], cls, csize) && ReadsAs(u, w[1..], cls, csize)
  {
    if ReadsAs([sym] + u, w, cls, csize) {
      assert Matches(([sym] + u)[0], w[0], cls, csize);
      forall i | 0 <= i < |u| ensures Matches(u[i], w[1..][i], cls, csize) {
        assert Matches(([sym] + u)[i + 1], w[i + 1], cls, csize);
      }
    }
    if Matches(sym, w[0], cls, csize) && ReadsAs(u, w[1..], cls, csize) {
      forall i | 0 <= i < |w| ensures Matches(([sym] + u)[i], w[i], cls, csize) {
        if i > 0 { assert Matches(u[i - 1], w[1..][i - 1], cls, csize); }
      }
    }
  }

  /** The final state of a rule is reached on the classes of w exactly when w is read from the start to there. */
  lemma ReachReads(n: Net, num: seq<int>, before: seq<int>, csize: nat, numecs: nat, cls: seq<ClassInfo>,
                   ecls: seq<ClassInfo>, start: int, f: int, w: seq<int>)
    requires Abstracts(n, num, before, csize, numecs, cls, ecls) && !Solid(n, f)
    requires forall i :: 0 <= i < |w| ==> 0 <= w[i] < csize
    ensures InReach(n, num, ecls, start, EcWord(num, w), f) <==> w in Read(Words(n, start, f), cls, csize)
  {
    if InReach(n, num, ecls, start, EcWord(num, w), f) {
      var p :| WalkLink(n, num, ecls, start, EcWord(num, w), p, f);
      WalkReads(n, num, before, csize, numecs, cls, ecls, p, w);
      InWords(n, start, f, p, Word(n, p));
      InRead(Word(n, p), w, Words(n, start, f), cls, csize);
    }
    if w in Read(Words(n, start, f), cls, csize) {
      var u := FromRead(w, Words(n, start, f), cls, csize);
      var p := Witness(n, start, f, u);
      WalkReads(n, num, before, csize, numecs, cls, ecls, p, w);
      assert WalkLink(n, num, ecls, start, EcWord(num, w), p, f);
    }
  }

  // ----- all that is known when the tables are done

  /** The NFA with its rules, the classes, the DFA with its rows, and the table entries. */
  datatype Build = Build(s: Arrays, num: seq<int>, before: seq<int>, csize: nat, numecs: nat, cls: seq<ClassInfo>,
                         ecls: seq<ClassInfo>, infos: seq<Info>, rules: seq<Rule>, starts: seq<int>, on: seq<set<int>>,
                         dss: seq<seq<int>>, dfaacc: seq<int>, rows: seq<seq<int>>, kept: seq<seq<int>>,
                         useNul: bool, nultrans: seq<int>, eob: int,
                         states: map<int, Entry>, entries: map<int, Entry>, temps: seq<seq<int>>, tnum: seq<int>)

  ghost predicate NfaSide(b: Build) {
    && Abstracts(b.s.net, b.num, b.before, b.csize, b.numecs, b.cls, b.ecls)
    && Complete(b.s, b.infos) && Means(b.rules, b.infos, b.cls, b.csize) && AllAttached(b.s, b.starts, b.on, b.infos)
  }

  ghost predicate DfaSide(b: Build) {
    && RowsOk(b.s.net, b.s.accptnum, b.num, b.ecls, b.dss, b.rows, b.numecs) && |b.dss| == |b.dfaacc| == |b.rows| + 1
    && Primed(b.s.net, b.s.accptnum, b.dss, b.starts, b.eob)
    && forall i :: 1 <= i < |b.dss| ==> InNet(b.s.net, b.dss[i]) && Lowest(b.s.accptnum, b.dss[i], b.dfaacc[i])
  }

  /** The rows made so far. */
  ghost predicate RowsSide(b: Build) {
    && RowsOk(b.s.net, b.s.accptnum, b.num, b.ecls, b.dss, b.rows, b.numecs)
    && Primed(b.s.net, b.s.accptnum, b.dss, b.starts, b.eob)
  }

  /** Rule k is active in start state i and its pattern denotes w. */
  ghost predicate RuleMatches(b: Build, i: int, k: int, w: seq<int>) {
    0 <= i < |b.on| && 0 <= k < |b.rules| && k in b.on[i] && w in Denotes(Pattern(b.rules[k]), b.csize)
  }

  ghost predicate IsText(b: Build, w: seq<int>) {
    b.csize <= |b.num| && forall i :: 0 <= i < |w| ==> 0 <= w[i] < b.csize
  }

  /** A rule matches w exactly when its final state can be reached on the classes of w. */
  lemma MatchReaches(b: Build, i: int, k: int, w: seq<int>)
    requires NfaSide(b) && 1 <= i < |b.starts| && IsText(b, w) && 0 <= k < |b.infos|
    ensures RuleMatches(b, i, k, w)
            <==> InReach(b.s.net, b.num, b.ecls, b.starts[i], EcWord(b.num, w), b.infos[k].m.final)
    ensures b.s.accptnum[b.infos[k].m.final] == k + 1 && Significant(b.s.net, b.s.accptnum, b.infos[k].m.final)
  {
    var f := b.infos[k].m.final;
    assert InfoOk(b.s, k, b.infos[k]) && Attached(b.s.net, b.starts[i], b.on[i], b.infos)
        && MeansAt(b.rules[k], b.infos[k].l, b.cls, b.csize);
    hide Words, Read, Denotes, Walks, Region;
    ReachReads(b.s.net, b.num, b.before, b.csize, b.numecs, b.cls, b.ecls, b.starts[i], f, w);
    if k !in b.on[i] { ReadNothing(b.cls, b.csize, w); }
  }

  lemma ReadNothing(cls: seq<ClassInfo>, csize: int, w: seq<int>)
    ensures w !in Read(iset{}, cls, csize)
  {}

  /** The accepting number of a DFA state that models w is that of the first rule matching w. */
  ghost predicate FirstRule(b: Build, i: int, w: seq<int>, a: int) {
    if a == 0 then forall k :: !RuleMatches(b, i, k, w)
    else RuleMatches(b, i, a - 1, w) && forall k :: RuleMatches(b, i, k, w) ==> a - 1 <= k
  }

  lemma AcceptMeans(b: Build, i: int, w: seq<int>, d: seq<int>, a: int)
    requires NfaSide(b) && 1 <= i < |b.starts| && IsText(b, w) && InNet(b.s.net, d)
    requires Models(b.s.net, b.s.accptnum, b.num, b.ecls, b.starts[i], EcWord(b.num, w), d)
             && Lowest(b.s.accptnum, d, a)
    ensures FirstRule(b, i, w, a)
  {
    hide NfaSide, Models, AccIn, RuleMatches;
    forall x ensures AccIn(b.s.accptnum, d, x) <==> RuleMatches(b, i, x - 1, w) {
      AcceptOne(b, i, w, d, x);
    }
    forall k | RuleMatches(b, i, k, w) ensures AccIn(b.s.accptnum, d, k + 1) {
      AcceptOne(b, i, w, d, k + 1);
    }
    if a != 0 { AcceptOne(b, i, w, d, a); }
  }

  lemma AcceptOne(b: Build, i: int, w: seq<int>, d: seq<int>, x: int)
    requires NfaSide(b) && 1 <= i < |b.starts| && IsText(b, w) && InNet(b.s.net, d)
    requires Models(b.s.net, b.s.accptnum, b.num, b.ecls, b.starts[i], EcWord(b.num, w), d)
    ensures AccIn(b.s.accptnum, d, x) <==> RuleMatches(b, i, x - 1, w)
  {
    hide Abstracts, AllAttached, Denotes, InReach, Region, InfoOk;
    var acc := b.s.accptnum;
    if AccIn(acc, d, x) {
      var s :| s in d && 0 <= s < |acc| && acc[s] == x && x != 0;
      var j :| 0 <= j < |d| && d[j] == s;
      assert IsFinal(b.infos, s);
      var k :| 0 <= k < |b.infos| && b.infos[k].m.final == s;
      MatchReaches(b, i, k, w);
    }
    if RuleMatches(b, i, x - 1, w) {
      MatchReaches(b, i, x - 1, w);
      assert b.infos[x - 1].m.final in d;
    }
  }

  // ----- runs of the DFA

  /** The DFA state after e, or 0 when the DFA has jammed. */
  ghost function Run(rows: seq<seq<int>>, d: int, e: seq<int>): int {
    if e == [] then d
    else var s := Run(rows, d, e[..|e| - 1]);
         if 1 <= s <= |rows| && 0 <= e[|e| - 1] < |rows[s - 1]| then rows[s - 1][e[|e| - 1]] else 0
  }

  ghost predicate InClasses(e: seq<int>, numecs: int) {
    forall i :: 0 <= i < |e| ==> 1 <= e[i] <= numecs
  }

  ghost predicate Stuck(b: Build, i: int, e: seq<int>) {
    0 <= i < |b.starts| && forall s :: !InReach(b.s.net, b.num, b.ecls, b.starts[i], e, s)
  }

  /** d is the DFA state after e in the right sense: it models the NFA, and it is 0 exactly when the NFA cannot go
      on. */
  ghost predicate RunsTo(b: Build, i: int, e: seq<int>, d: int) {
    if d == 0 then Stuck(b, i, e)
    else 1 <= d <= |b.rows| && d < |b.dss| && d != b.eob && 1 <= i < |b.starts| && !Stuck(b, i, e)
         && Models(b.s.net, b.s.accptnum, b.num, b.ecls, b.starts[i], e, b.dss[d])
  }

  /** While the DFA runs it models the NFA; it jams exactly when the NFA cannot go on. */
  lemma {:induction false} RunMeans(b: Build, i: int, e: seq<int>)
    requires NfaSide(b) && DfaSide(b) && 1 <= i < |b.starts| && InClasses(e, b.numecs)
    ensures RunsTo(b, i, e, Run(b.rows, i, e))
  {
    hide NfaSide, DfaSide, RunsTo;
    if e == [] {
      RunStarts(b, i);
    } else {
      var k := |e| - 1;
      assert e == e[..k] + [e[k]];
      RunMeans(b, i, e[..k]);
      RunStep(b, i, e[..k], e[k], Run(b.rows, i, e[..k]));
    }
  }

  lemma RunStarts(b: Build, i: int)
    requires NfaSide(b) && DfaSide(b) && 1 <= i < |b.starts|
    ensures RunsTo(b, i, [], i) && i != 0
  {
    var st := b.starts[i];
    assert Plain(b.s, st);
    ReachesSelf(b.s.net, {st}, st);
    ReachNothing(b.s.net, b.num, b.ecls, st, st);
    ModelsStart(b.s.net, b.s.accptnum, b.num, b.ecls, st, b.dss[i]);
  }

  lemma StuckMore(b: Build, i: int, w: seq<int>, c: int)
    requires NfaSide(b) && Stuck(b, i, w)
    ensures Stuck(b, i, w + [c])
  {
    forall s ensures !InReach(b.s.net, b.num, b.ecls, b.starts[i], w + [c], s) {
      ReachMore(b.s.net, b.num, b.ecls, b.starts[i], w, c, s);
    }
  }

  lemma RunStep(b: Build, i: int, w: seq<int>, c: int, d: int)
    requires NfaSide(b) && DfaSide(b) && 1 <= i < |b.starts| && 1 <= c <= b.numecs && RunsTo(b, i, w, d)
    ensures d != 0 ==> 1 <= d <= |b.rows| && c < |b.rows[d - 1]|
    ensures RunsTo(b, i, w + [c], if d == 0 then 0 else b.rows[d - 1][c])
  {
    if d == 0 {
      StuckMore(b, i, w, c);
    } else {
      RowStep(b, i, w, c, d);
    }
  }

  lemma RowStep(b: Build, i: int, w: seq<int>, c: int, d: int)
    requires NfaSide(b) && DfaSide(b) && 1 <= i < |b.starts| && 1 <= c <= b.numecs && RunsTo(b, i, w, d) && d != 0
    ensures c < |b.rows[d - 1]| && RunsTo(b, i, w + [c], b.rows[d - 1][c])
  {
    var n, acc := b.s.net, b.s.accptnum;
    assert RowOk(n, acc, b.num, b.ecls, b.dss, b.dss[d], b.rows[d - 1], b.numecs);
    assert RowAt(n, acc, b.num, b.ecls, b.dss, b.dss[d], c, b.rows[d - 1][c]);
    var f := Follow(n, b.num, b.ecls, b.dss[d], c);
    ModelsJam(n, acc, b.num, b.ecls, b.starts[i], w, b.dss[d], c);
    if f != [] {
      var v := b.rows[d - 1][c];
      ModelsStep(n, acc, b.num, b.ecls, b.starts[i], w, b.dss[d], c, b.dss[v]);
      assert f[0] in multiset(f);
      assert f[0] in multiset(b.dss[v]);
    }
  }

  /** No rule matches where the NFA is stuck. */
  lemma StuckNoRule(b: Build, i: int, w: seq<int>)
    requires NfaSide(b) && 1 <= i < |b.starts| && IsText(b, w) && Stuck(b, i, EcWord(b.num, w))
    ensures FirstRule(b, i, w, 0)
  {
    hide Abstracts, Complete, AllAttached, Denotes, InReach, Means;
    forall k ensures !RuleMatches(b, i, k, w) {
      if RuleMatches(b, i, k, w) {
        MeansSizes(b.rules, b.infos, b.cls, b.csize);
        MatchReaches(b, i, k, w);
      }
    }
  }

  lemma MeansSizes(rules: seq<Rule>, infos: seq<Info>, cls: seq<ClassInfo>, csize: int)
    requires Means(rules, infos, cls, csize)
    ensures |rules| == |infos|
  {}

  /** Once stuck, always stuck. */
  lemma {:induction false} StuckOn(b: Build, i: int, w: seq<int>, v: seq<int>)
    requires NfaSide(b) && Stuck(b, i, w)
    ensures Stuck(b, i, w + v)
  {
    hide NfaSide, Stuck;
    if v == [] {
      assert w + v == w;
    } else {
      var k := |v| - 1;
      StuckOn(b, i, w, v[..k]);
      StuckMore(b, i, w + v[..k], v[k]);
      assert w + v == w + v[..k] + [v[k]];
    }
  }
}
