/** No state is there in vain. The DFA jams exactly where no rule can match any longer, as every state of the NFA with a
    symbol leads to the final state of some rule; and every state of the DFA is reached. */
module Prefixes {
  import opened Flexdef
  import opened Nets
  import opened Machines
  import opened Regex
  import opened Rules
  import opened Abstraction
  import opened Subsets
  import opened Dfa
  import opened Scanner
  import Ecs

  /** Some rule of start state i matches w, or a string that begins with w. */
  ghost predicate Continues(b: Build, i: int, w: seq<int>) {
    exists k, v :: RuleMatches(b, i, k, w + v)
  }

  /** A path of states can be taken on some string, if every class has a character. */
  lemma {:induction false} Takeable(b: Build, p: seq<int>) returns (v: seq<int>)
    requires NfaSide(b) && NoneEmpty(b.cls, b.csize) && IsPath(b.s.net, p)
    ensures IsText(b, v) && Walks(b.s.net, b.num, b.ecls, p, EcWord(b.num, v))
    decreases |p|
  {
    hide *;
    SidesOf(b);
    PathParts(b.s.net, p);
    if |p| == 1 {
      v := [];
      WalkHere(b, p);
    } else {
      v := Takeable(b, p[1..]);
      if Solid(b.s.net, p[0]) {
        var c := TakesSome(b, p[0]);
        TakeFront(b, p, v, c);
        v := [c] + v;
      } else {
        TextInside(b, v);
        WalkPast(b.s.net, b.num, b.ecls, p, EcWord(b.num, v));
      }
    }
  }

  lemma TextInside(b: Build, w: seq<int>)
    requires IsText(b, w)
    ensures forall i :: 0 <= i < |w| ==> 0 <= w[i] < |b.num|
  {}

  lemma PathParts(n: Net, p: seq<int>)
    requires IsPath(n, p)
    ensures |p| >= 1 && 1 <= p[0] <= n.last && (|p| > 1 ==> Edge(n, p[0], p[1]) && IsPath(n, p[1..]))
  {}

  lemma WalkHere(b: Build, p: seq<int>)
    requires |p| == 1 && 1 <= p[0] <= b.s.net.last && b.csize <= |b.num|
    ensures IsText(b, []) && Walks(b.s.net, b.num, b.ecls, p, EcWord(b.num, []))
  {}

  lemma WalkPast(n: Net, num: seq<int>, cls: seq<ClassInfo>, p: seq<int>, e: seq<int>)
    requires |p| > 1 && 1 <= p[0] <= n.last && Edge(n, p[0], p[1]) && !Solid(n, p[0]) && Walks(n, num, cls, p[1..], e)
    ensures Walks(n, num, cls, p, e)
  {}

  lemma TakeFront(b: Build, p: seq<int>, v: seq<int>, c: int)
    requires |p| > 1 && Edge(b.s.net, p[0], p[1]) && 0 <= c < b.csize <= |b.num|
    requires Takes(b.s.net, b.num, b.ecls, p[0], Ec(b.num, c)) && IsText(b, v)
    requires Walks(b.s.net, b.num, b.ecls, p[1..], EcWord(b.num, v))
    ensures IsText(b, [c] + v) && Walks(b.s.net, b.num, b.ecls, p, EcWord(b.num, [c] + v))
  {
    hide Walks, Takes, Edge;
    assert EcWord(b.num, [c] + v) == [Ec(b.num, c)] + EcWord(b.num, v);
    WalkFirst(b.s.net, b.num, b.ecls, p, Ec(b.num, c), EcWord(b.num, v));
  }

  lemma SidesOf(b: Build)
    requires NfaSide(b)
    ensures Abstracts(b.s.net, b.num, b.before, b.csize, b.numecs, b.cls, b.ecls) && b.csize <= |b.num|
    ensures AllLead(b.s.net, b.infos) && Tidy(b.s.net, 1, b.s.net.last)
  {}

  lemma TakesSome(b: Build, s: int) returns (c: int)
    requires NfaSide(b) && NoneEmpty(b.cls, b.csize) && Solid(b.s.net, s)
    ensures 0 <= c < b.csize <= |b.num| && Takes(b.s.net, b.num, b.ecls, s, Ec(b.num, c))
  {
    hide Complete, Means, AllAttached;
    var sym := b.s.net.tc[s];
    assert LabelFine(sym, b.before, b.csize, b.cls);
    if sym >= 0 {
      c := sym;
    } else {
      assert HasChar(b.cls[-sym - 1], b.csize);
      c :| 0 <= c < b.csize && (c in b.cls[-sym - 1].members) != b.cls[-sym - 1].negated;
    }
    StepAbstraction(sym, c, b.num, b.before, b.csize, b.numecs, b.cls, b.ecls);
  }

  /** Two walks, the second from where the first ends. */
  lemma {:induction false} WalkOn(n: Net, num: seq<int>, cls: seq<ClassInfo>, p: seq<int>, u: seq<int>, q: seq<int>,
                                  v: seq<int>)
    requires Walks(n, num, cls, p, u) && Walks(n, num, cls, q, v) && q[0] == p[|p| - 1]
    ensures Walks(n, num, cls, p + q[1..], u + v)
    ensures (p + q[1..])[0] == p[0] && (p + q[1..])[|p + q[1..]| - 1] == q[|q| - 1]
    decreases |p|
  {
    hide Takes;
    if |p| == 1 {
      assert p + q[1..] == q && u + v == v;
    } else {
      assert (p + q[1..])[1..] == p[1..] + q[1..];
      if Solid(n, p[0]) {
        WalkOn(n, num, cls, p[1..], u[1..], q, v);
        assert (u + v)[1..] == u[1..] + v;
      } else {
        WalkOn(n, num, cls, p[1..], u, q, v);
      }
    }
  }

  lemma LeadsSome(b: Build, q: int) returns (k: int, p: seq<int>)
    requires NfaSide(b) && Solid(b.s.net, q)
    ensures 0 <= k < |b.infos| && IsPath(b.s.net, p) && |p| > 1 && p[0] == q && p[|p| - 1] == b.infos[k].m.final
    ensures IsPath(b.s.net, p[1..]) && Edge(b.s.net, q, p[1])
  {
    hide Abstracts, Means, AllAttached, Region, AccOnly;
    assert LeadsToRule(b.s.net, b.infos, q);
    k :| 0 <= k < |b.infos| && Way(b.s.net, q, b.infos[k].m.final);
    var u :| u in Words(b.s.net, q, b.infos[k].m.final);
    p := Witness(b.s.net, q, b.infos[k].m.final, u);
    FinalEmpty(b, k);
  }

  lemma FinalEmpty(b: Build, k: int)
    requires NfaSide(b) && 0 <= k < |b.infos|
    ensures !Solid(b.s.net, b.infos[k].m.final)
  {
    hide Abstracts, Means, AllAttached, Region, AccOnly, AllLead, IsMachine, Words;
    assert InfoOk(b.s, k, b.infos[k]);
  }

  /** Where the NFA is not stuck some rule can still match. */
  lemma GoesOn(b: Build, i: int, w: seq<int>)
    requires NfaSide(b) && NoneEmpty(b.cls, b.csize) && 1 <= i < |b.starts| && IsText(b, w) && w != []
    requires !Stuck(b, i, EcWord(b.num, w))
    ensures Continues(b, i, w)
  {
    hide *;
    var n, w0, c := b.s.net, w[..|w| - 1], w[|w| - 1];
    assert w == w0 + [c];
    var q, pq := LastStep(b, i, w0, c);
    TakesSolid(n, b.num, b.ecls, q, Ec(b.num, c));
    var k, p := LeadsSome(b, q);
    var v := Takeable(b, p[1..]);
    TextInside(b, v);
    TextInside(b, w0);
    WalkFirst(n, b.num, b.ecls, p, Ec(b.num, c), EcWord(b.num, v));
    WalkOn(n, b.num, b.ecls, pq, EcWord(b.num, w0), p, [Ec(b.num, c)] + EcWord(b.num, v));
    ThreeWords(b, w0, c, v);
    ReachesBy(n, b.num, b.ecls, b.starts[i], EcWord(b.num, w + v), pq + p[1..], b.infos[k].m.final);
    MatchReaches(b, i, k, w + v);
    ContinuesBy(b, i, k, w, v);
  }

  /** The last step of the NFA, and a walk to where it begins. */
  lemma LastStep(b: Build, i: int, w0: seq<int>, c: int) returns (q: int, pq: seq<int>)
    requires NfaSide(b) && 1 <= i < |b.starts| && IsText(b, w0 + [c]) && !Stuck(b, i, EcWord(b.num, w0 + [c]))
    ensures IsText(b, w0) && 0 <= c < |b.num| && Walks(b.s.net, b.num, b.ecls, pq, EcWord(b.num, w0))
    ensures |pq| > 0 && pq[0] == b.starts[i] && pq[|pq| - 1] == q && Takes(b.s.net, b.num, b.ecls, q, Ec(b.num, c))
  {
    hide NfaSide, Takes, Walks;
    SidesOf(b);
    var n, e := b.s.net, Ec(b.num, (w0 + [c])[|w0|]);
    PartText(b, w0, [c]);
    assert EcWord(b.num, [c]) == [e];
    var s :| InReach(n, b.num, b.ecls, b.starts[i], EcWord(b.num, w0) + [e], s);
    ReachMore(n, b.num, b.ecls, b.starts[i], EcWord(b.num, w0), e, s);
    q :| InReach(n, b.num, b.ecls, b.starts[i], EcWord(b.num, w0), q) && Takes(n, b.num, b.ecls, q, e);
    pq :| WalkLink(n, b.num, b.ecls, b.starts[i], EcWord(b.num, w0), pq, q);
    WalkSome(n, b.num, b.ecls, pq, EcWord(b.num, w0));
  }

  lemma WalkSome(n: Net, num: seq<int>, cls: seq<ClassInfo>, p: seq<int>, e: seq<int>)
    requires Walks(n, num, cls, p, e)
    ensures |p| > 0
  {}

  lemma ThreeWords(b: Build, w0: seq<int>, c: int, v: seq<int>)
    requires IsText(b, w0 + [c]) && IsText(b, v)
    ensures IsText(b, w0 + [c] + v) && IsText(b, w0) && 0 <= c < |b.num|
    ensures EcWord(b.num, w0 + [c] + v) == EcWord(b.num, w0) + ([Ec(b.num, c)] + EcWord(b.num, v))
  {
    assert (w0 + [c])[|w0|] == c;
    forall j | 0 <= j < |w0| ensures 0 <= w0[j] < b.csize { assert (w0 + [c])[j] == w0[j]; }
  }

  lemma ReachesBy(n: Net, num: seq<int>, cls: seq<ClassInfo>, start: int, e: seq<int>, p: seq<int>, s: int)
    requires Walks(n, num, cls, p, e) && |p| > 0 && p[0] == start && p[|p| - 1] == s
    ensures InReach(n, num, cls, start, e, s)
  {
    hide Walks;
    assert WalkLink(n, num, cls, start, e, p, s);
  }

  lemma ContinuesBy(b: Build, i: int, k: int, w: seq<int>, v: seq<int>)
    requires RuleMatches(b, i, k, w + v)
    ensures Continues(b, i, w)
  {
    hide RuleMatches;
  }

  lemma TakesSolid(n: Net, num: seq<int>, cls: seq<ClassInfo>, q: int, e: int)
    requires Takes(n, num, cls, q, e)
    ensures Solid(n, q)
  {}

  lemma WalkFirst(n: Net, num: seq<int>, cls: seq<ClassInfo>, p: seq<int>, e: int, v: seq<int>)
    requires |p| > 1 && Takes(n, num, cls, p[0], e) && Edge(n, p[0], p[1]) && Walks(n, num, cls, p[1..], v)
    ensures Walks(n, num, cls, p, [e] + v)
  {
    assert ([e] + v)[1..] == v;
  }

  lemma MatchesText(b: Build, i: int, k: int, w: seq<int>)
    requires NfaSide(b) && RuleMatches(b, i, k, w)
    ensures IsText(b, w)
  {
    hide Complete, AllAttached, Compacted, Denotes;
    assert MeansAt(b.rules[k], b.infos[k].l, b.cls, b.csize);
    var u := FromRead(w, b.infos[k].l, b.cls, b.csize);
    forall j | 0 <= j < |w| ensures 0 <= w[j] < b.csize { assert Matches(u[j], w[j], b.cls, b.csize); }
  }

  lemma PartText(b: Build, w: seq<int>, v: seq<int>)
    requires IsText(b, w + v)
    ensures IsText(b, w) && IsText(b, v) && EcWord(b.num, w + v) == EcWord(b.num, w) + EcWord(b.num, v)
  {
    forall j | 0 <= j < |w| ensures 0 <= w[j] < b.csize { assert (w + v)[j] == w[j]; }
    forall j | 0 <= j < |v| ensures 0 <= v[j] < b.csize { assert (w + v)[|w| + j] == v[j]; }
  }

  /** Where the NFA is stuck no rule matches any longer. */
  lemma StuckEnds(b: Build, i: int, w: seq<int>)
    requires NfaSide(b) && 1 <= i < |b.starts| && IsText(b, w) && Stuck(b, i, EcWord(b.num, w))
    ensures !Continues(b, i, w)
  {
    hide NfaSide, RuleMatches, Stuck;
    forall k, v ensures !RuleMatches(b, i, k, w + v) {
      if RuleMatches(b, i, k, w + v) {
        MatchesText(b, i, k, w + v);
        PartText(b, w, v);
        StuckOn(b, i, EcWord(b.num, w), EcWord(b.num, v));
        StuckNoRule(b, i, w + v);
      }
    }
  }

  /** The DFA jams exactly where no rule can match any longer. */
  lemma JamsExactly(b: Build, i: int, w: seq<int>)
    requires NfaSide(b) && DfaSide(b) && AllInhabited(b.rules, b.csize)
    requires 1 <= i < |b.starts| && IsText(b, w) && w != []
    ensures Run(b.rows, i, EcWord(b.num, w)) == 0 <==> !Continues(b, i, w)
  {
    hide NfaSide, DfaSide, RunsTo, AllInhabited, NoneEmpty, Continues;
    Inhabitants(b);
    ClassesOf(b, w);
    RunMeans(b, i, EcWord(b.num, w));
    RunsStuck(b, i, EcWord(b.num, w));
    if Stuck(b, i, EcWord(b.num, w)) { StuckEnds(b, i, w); } else { GoesOn(b, i, w); }
  }

  lemma Inhabitants(b: Build)
    requires NfaSide(b) && AllInhabited(b.rules, b.csize)
    ensures NoneEmpty(b.cls, b.csize)
  {
    hide Abstracts, Complete, AllAttached, AllInhabited, NoneEmpty;
  }

  lemma ClassesOf(b: Build, w: seq<int>)
    requires NfaSide(b) && IsText(b, w)
    ensures InClasses(EcWord(b.num, w), b.numecs)
  {
    EcsPositive(b.s.net, b.num, b.before, b.csize, b.numecs, b.cls, b.ecls);
  }

  lemma RunsStuck(b: Build, i: int, e: seq<int>)
    requires RunsTo(b, i, e, Run(b.rows, i, e))
    ensures Run(b.rows, i, e) == 0 <==> Stuck(b, i, e)
  {}

  // ----- every state of the DFA is reached

  ghost predicate ReachedBy(b: Build, d: int, i: int, w: seq<int>) {
    1 <= i < |b.starts| && IsText(b, w) && Run(b.rows, i, EcWord(b.num, w)) == d
  }

  /** Every state of the DFA but the end-of-buffer state is the one after some text, from some start state. */
  ghost predicate AllReached(b: Build) {
    forall d :: 1 <= d <= |b.rows| && d != b.eob ==> IsReached(b, d)
  }

  ghost predicate IsReached(b: Build, d: int) {
    exists i, w :: ReachedBy(b, d, i, w)
  }

  /** Every class has a character. */
  lemma ClassChar(b: Build, e: int) returns (c: int)
    requires NfaSide(b) && 1 <= e <= b.numecs
    ensures 0 <= c < b.csize <= |b.num| && Ec(b.num, c) == e
  {
    hide Complete, Means, AllAttached, Compacted, LabelFine;
    assert Ecs.Used(b.num, b.csize, e);
    var x :| 1 <= x <= b.csize && b.num[x] == e;
    c := if x == b.csize then 0 else x;
  }

  lemma EobRowZero(b: Build, e: int)
    requires RowsSide(b) && 1 <= b.eob <= |b.rows| && 1 <= e <= b.numecs
    ensures e < |b.rows[b.eob - 1]| && b.rows[b.eob - 1][e] == 0
  {
    var n, acc := b.s.net, b.s.accptnum;
    assert RowOk(n, acc, b.num, b.ecls, b.dss, b.dss[b.eob], b.rows[b.eob - 1], b.numecs);
    assert RowAt(n, acc, b.num, b.ecls, b.dss, [], e, b.rows[b.eob - 1][e]);
  }

  lemma {:induction false} ReachState(b: Build, d: int) returns (i: int, w: seq<int>)
    requires NfaSide(b) && RowsSide(b) && AllLedTo(b.rows, |b.starts|, b.eob, |b.dss|, b.numecs)
    requires 1 <= d < |b.dss| && d != b.eob
    ensures ReachedBy(b, d, i, w)
    decreases d
  {
    hide NfaSide, RowsSide, Run;
    SizesOf(b);
    if d < |b.starts| {
      i, w := d, [];
      RunNothing(b, d);
    } else {
      assert LedTo(b.rows, d, b.numecs);
      var s :| 0 <= s < |b.rows| && s + 1 < d && TargetIn(b.rows[s], d, b.numecs);
      var e :| 1 <= e <= b.numecs && e < |b.rows[s]| && b.rows[s][e] == d;
      if s + 1 == b.eob { EobRowZero(b, e); }
      var w0;
      i, w0 := ReachState(b, s + 1);
      var c := ClassChar(b, e);
      w := w0 + [c];
      RunOneMore(b, i, w0, c, s + 1);
    }
  }

  lemma SizesOf(b: Build)
    requires NfaSide(b) && RowsSide(b)
    ensures |b.rows| < |b.dss| && 1 <= |b.starts| <= |b.dss| && b.csize <= |b.num|
  {
    hide Abstracts, Complete, Means, AllAttached;
    assert Abstracts(b.s.net, b.num, b.before, b.csize, b.numecs, b.cls, b.ecls);
    SidesOf(b);
  }

  lemma RunNothing(b: Build, d: int)
    requires b.csize <= |b.num|
    ensures IsText(b, []) && Run(b.rows, d, EcWord(b.num, [])) == d
  {}

  lemma RunOneMore(b: Build, i: int, w: seq<int>, c: int, d: int)
    requires ReachedBy(b, d, i, w) && 0 <= c < b.csize && 1 <= d <= |b.rows|
    requires Ec(b.num, c) < |b.rows[d - 1]| && Ec(b.num, c) >= 0
    ensures ReachedBy(b, b.rows[d - 1][Ec(b.num, c)], i, w + [c])
  {
    assert EcWord(b.num, w + [c]) == EcWord(b.num, w) + [Ec(b.num, c)];
    assert (EcWord(b.num, w) + [Ec(b.num, c)])[..|w|] == EcWord(b.num, w);
  }

  lemma DfaRows(b: Build)
    requires DfaSide(b)
    ensures RowsSide(b)
  {}

  lemma EveryState(b: Build)
    requires NfaSide(b) && DfaSide(b) && AllLedTo(b.rows, |b.starts|, b.eob, |b.dss|, b.numecs)
    ensures AllReached(b)
  {
    hide NfaSide, RowsSide, DfaSide, ReachedBy;
    DfaRows(b);
    SizesOf(b);
    forall d | 1 <= d <= |b.rows| && d != b.eob ensures IsReached(b, d) {
      var i, w := ReachState(b, d);
    }
  }
}
