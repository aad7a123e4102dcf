/** The subset construction in the abstract: which NFA states the recorded sets of a DFA state stand for. */
module Subsets {
  import opened Nets
  import opened Machines
  import opened Regex
  import opened Abstraction

  // ----- states reached without a symbol

  ghost predicate EpsPath(n: Net, p: seq<int>) {
    |p| > 0 && 1 <= p[0] <= n.last && (|p| > 1 ==> !Solid(n, p[0]) && Edge(n, p[0], p[1]) && EpsPath(n, p[1..]))
  }

  ghost predicate EpsLink(n: Net, from: set<int>, p: seq<int>, s: int) {
    EpsPath(n, p) && p[0] in from && p[|p| - 1] == s
  }

  /** s can be reached from a state of from over epsilon states only. */
  ghost predicate Reaches(n: Net, from: set<int>, s: int) {
    exists p :: EpsLink(n, from, p, s)
  }

  lemma ReachesSelf(n: Net, from: set<int>, s: int)
    requires s in from && 1 <= s <= n.last
    ensures Reaches(n, from, s)
  {
    assert EpsLink(n, from, [s], s);
  }

  lemma ReachesStep(n: Net, from: set<int>, a: int, b: int)
    requires Reaches(n, from, a) && !Solid(n, a) && Edge(n, a, b) && 1 <= b <= n.last
    ensures Reaches(n, from, b)
  {
    var p :| EpsLink(n, from, p, a);
    EpsSnoc(n, p, a, b);
    assert EpsLink(n, from, p + [b], b);
  }

  lemma {:induction false} EpsSnoc(n: Net, p: seq<int>, a: int, b: int)
    requires EpsPath(n, p) && p[|p| - 1] == a && !Solid(n, a) && Edge(n, a, b) && 1 <= b <= n.last
    ensures EpsPath(n, p + [b])
    decreases |p|
  {
    assert (p + [b])[1..] == p[1..] + [b];
    if |p| > 1 { EpsSnoc(n, p[1..], a, b); } else { assert p[1..] + [b] == [b]; }
  }

  /** m holds all successors of its epsilon states. */
  ghost predicate EpsClosed(n: Net, m: set<int>) {
    forall a, b :: a in m && !Solid(n, a) && Edge(n, a, b) ==> b in m
  }

  lemma ReachesClosed(n: Net, from: set<int>, m: set<int>, s: int)
    requires from <= m && EpsClosed(n, m) && Reaches(n, from, s)
    ensures s in m
  {
    var p :| EpsLink(n, from, p, s);
    EpsStays(n, m, p);
  }

  lemma {:induction false} EpsStays(n: Net, m: set<int>, p: seq<int>)
    requires EpsClosed(n, m) && EpsPath(n, p) && p[0] in m
    ensures p[|p| - 1] in m
    decreases |p|
  {
    if |p| > 1 { EpsStays(n, m, p[1..]); }
  }

  lemma ReachesFrom(n: Net, from: set<int>, a: int, s: int)
    requires Reaches(n, {a}, s) && a in from
    ensures Reaches(n, from, s)
  {
    var p :| EpsLink(n, {a}, p, s);
    assert EpsLink(n, from, p, s);
  }

  lemma ReachesOne(n: Net, from: set<int>, s: int) returns (a: int)
    requires Reaches(n, from, s)
    ensures a in from && Reaches(n, {a}, s)
  {
    var p :| EpsLink(n, from, p, s);
    a := p[0];
    assert EpsLink(n, {a}, p, s);
  }

  // ----- recorded sets

  /** A state worth recording: it makes a transition on a symbol, or accepts. */
  ghost predicate Significant(n: Net, acc: seq<int>, s: int) {
    1 <= s <= n.last && n.last < |acc| && (Solid(n, s) || acc[s] != 0)
  }

  ghost function Members(t: seq<int>): set<int> {
    set x | x in t
  }

  /** The significant states that epsclosure adds to from. */
  ghost function NewMembers(n: Net, acc: seq<int>, from: set<int>): set<int> {
    set s | 1 <= s <= n.last && s !in from && Significant(n, acc, s) && Reaches(n, from, s)
  }

  /** What epsclosure makes of the list t: its elements, with their multiplicities, and the new members. */
  ghost function ClosureOf(n: Net, acc: seq<int>, t: seq<int>): multiset<int> {
    multiset(t) + multiset(NewMembers(n, acc, Members(t)))
  }

  // ----- following a symbol

  ghost predicate Takes(n: Net, num: seq<int>, cls: seq<ClassInfo>, s: int, e: int) {
    Solid(n, s) && EcMatches(n.tc[s], e, num, cls)
  }

  /** The states of d with a transition on e. */
  ghost function Matching(n: Net, num: seq<int>, cls: seq<ClassInfo>, d: seq<int>, e: int): (m: seq<int>)
    ensures forall i :: 0 <= i < |m| ==> m[i] in d && Takes(n, num, cls, m[i], e)
  {
    if d == [] then []
    else var k := |d| - 1;
         var m := Matching(n, num, cls, d[..k], e);
         if Takes(n, num, cls, d[k], e) then m + [d[k]] else m
  }

  /** What symfollowset makes of d. */
  ghost function Follow(n: Net, num: seq<int>, cls: seq<ClassInfo>, d: seq<int>, e: int): seq<int> {
    var m := Matching(n, num, cls, d, e);
    seq(|m|, i requires 0 <= i < |m| => n.t1[m[i]])
  }

  lemma {:induction false} InMatching(n: Net, num: seq<int>, cls: seq<ClassInfo>, d: seq<int>, e: int, s: int)
    requires s in d && Takes(n, num, cls, s, e)
    ensures s in Matching(n, num, cls, d, e)
  {
    var k := |d| - 1;
    if s != d[k] {
      assert s in d[..k];
      InMatching(n, num, cls, d[..k], e, s);
    }
  }

  /** The targets are the successors of the members that take e. */
  lemma InFollow(n: Net, num: seq<int>, cls: seq<ClassInfo>, d: seq<int>, e: int, c: int)
    ensures c in Follow(n, num, cls, d, e) <==> exists q :: q in d && Takes(n, num, cls, q, e) && n.t1[q] == c
  {
    var m := Matching(n, num, cls, d, e);
    if c in Follow(n, num, cls, d, e) {
      var i :| 0 <= i < |m| && n.t1[m[i]] == c;
    }
    if q :| q in d && Takes(n, num, cls, q, e) && n.t1[q] == c {
      InMatching(n, num, cls, d, e, q);
      var i :| 0 <= i < |m| && m[i] == q;
      assert Follow(n, num, cls, d, e)[i] == c;
    }
  }

  // ----- the states of the NFA after a string of classes

  /** p spells w: its symbol states, the last state left aside, take the classes of w in turn. */
  ghost predicate Walks(n: Net, num: seq<int>, cls: seq<ClassInfo>, p: seq<int>, w: seq<int>) {
    |p| > 0 && 1 <= p[0] <= n.last &&
    if |p| == 1 then w == []
    else Edge(n, p[0], p[1]) &&
         if Solid(n, p[0]) then w != [] && Takes(n, num, cls, p[0], w[0]) && Walks(n, num, cls, p[1..], w[1..])
         else Walks(n, num, cls, p[1..], w)
  }

  ghost predicate WalkLink(n: Net, num: seq<int>, cls: seq<ClassInfo>, start: int, w: seq<int>, p: seq<int>, s: int) {
    Walks(n, num, cls, p, w) && p[0] == start && p[|p| - 1] == s
  }

  /** The NFA can be in state s after w. */
  ghost predicate InReach(n: Net, num: seq<int>, cls: seq<ClassInfo>, start: int, w: seq<int>, s: int) {
    exists p :: WalkLink(n, num, cls, start, w, p, s)
  }

  lemma {:induction false} WalkNothing(n: Net, num: seq<int>, cls: seq<ClassInfo>, p: seq<int>)
    ensures Walks(n, num, cls, p, []) <==> EpsPath(n, p)
    decreases |p|
  {
    if |p| > 1 { WalkNothing(n, num, cls, p[1..]); }
  }

  lemma ReachNothing(n: Net, num: seq<int>, cls: seq<ClassInfo>, start: int, s: int)
    ensures InReach(n, num, cls, start, [], s) <==> Reaches(n, {start}, s)
  {
    if InReach(n, num, cls, start, [], s) {
      var p :| WalkLink(n, num, cls, start, [], p, s);
      WalkNothing(n, num, cls, p);
      assert EpsLink(n, {start}, p, s);
    }
    if Reaches(n, {start}, s) {
      var p :| EpsLink(n, {start}, p, s);
      WalkNothing(n, num, cls, p);
      assert WalkLink(n, num, cls, start, [], p, s);
    }
  }

  /** A walk over w + [e] consists of a walk over w, a step with e, and epsilon states. */
  lemma {:induction false} WalkSplit(n: Net, num: seq<int>, cls: seq<ClassInfo>, p: seq<int>, w: seq<int>, e: int)
    returns (pq: seq<int>, r: seq<int>)
    requires Walks(n, num, cls, p, w + [e])
    ensures Walks(n, num, cls, pq, w) && pq[0] == p[0]
    ensures var q := pq[|pq| - 1]; Takes(n, num, cls, q, e) && EpsPath(n, r) && Edge(n, q, r[0])
                                   && r[|r| - 1] == p[|p| - 1]
    decreases |p|
  {
    if Solid(n, p[0]) {
      assert (w + [e])[0] == if w == [] then e else w[0];
      if w == [] {
        assert (w + [e])[1..] == [];
        WalkNothing(n, num, cls, p[1..]);
        pq, r := [p[0]], p[1..];
      } else {
        assert (w + [e])[1..] == w[1..] + [e];
        var pq1, r1 := WalkSplit(n, num, cls, p[1..], w[1..], e);
        pq, r := [p[0]] + pq1, r1;
        assert pq[1..] == pq1;
      }
    } else {
      var pq1, r1 := WalkSplit(n, num, cls, p[1..], w, e);
      pq, r := [p[0]] + pq1, r1;
      assert pq[1..] == pq1;
    }
  }

  lemma {:induction false} WalkJoin(n: Net, num: seq<int>, cls: seq<ClassInfo>, pq: seq<int>, w: seq<int>, e: int,
                                    r: seq<int>)
    requires Walks(n, num, cls, pq, w) && EpsPath(n, r)
    requires var q := pq[|pq| - 1]; Takes(n, num, cls, q, e) && Edge(n, q, r[0])
    ensures Walks(n, num, cls, pq + r, w + [e])
    decreases |pq|
  {
    var p := pq + r;
    assert p[1..] == pq[1..] + r;
    if |pq| == 1 {
      assert p[1..] == r && (w + [e])[1..] == [];
      WalkNothing(n, num, cls, r);
    } else if Solid(n, pq[0]) {
      WalkJoin(n, num, cls, pq[1..], w[1..], e, r);
      assert (w + [e])[1..] == w[1..] + [e];
    } else {
      WalkJoin(n, num, cls, pq[1..], w, e, r);
    }
  }

  /** The states after w + [e] are those reached from the successors of the states that take e after w. */
  lemma ReachMore(n: Net, num: seq<int>, cls: seq<ClassInfo>, start: int, w: seq<int>, e: int, s: int)
    requires Tidy(n, 1, n.last)
    ensures InReach(n, num, cls, start, w + [e], s)
       <==> exists q :: InReach(n, num, cls, start, w, q) && Takes(n, num, cls, q, e) && Reaches(n, {n.t1[q]}, s)
  {
    if InReach(n, num, cls, start, w + [e], s) {
      var p :| WalkLink(n, num, cls, start, w + [e], p, s);
      var pq, r := WalkSplit(n, num, cls, p, w, e);
      var q := pq[|pq| - 1];
      assert WalkLink(n, num, cls, start, w, pq, q);
      assert EpsLink(n, {n.t1[q]}, r, s);
    }
    if q :| InReach(n, num, cls, start, w, q) && Takes(n, num, cls, q, e) && Reaches(n, {n.t1[q]}, s) {
      var pq :| WalkLink(n, num, cls, start, w, pq, q);
      var r :| EpsLink(n, {n.t1[q]}, r, s);
      WalkJoin(n, num, cls, pq, w, e, r);
      assert WalkLink(n, num, cls, start, w + [e], pq + r, s);
    }
  }

  // ----- what a recorded set means

  /** After w, the recorded set d has the same significant members as the NFA. */
  ghost predicate Models(n: Net, acc: seq<int>, num: seq<int>, cls: seq<ClassInfo>, start: int, w: seq<int>,
                         d: seq<int>) {
    forall s :: Significant(n, acc, s) ==> (s in d <==> InReach(n, num, cls, start, w, s))
  }

  lemma InTarget(n: Net, acc: seq<int>, t: seq<int>, d: seq<int>, s: int)
    requires multiset(d) == ClosureOf(n, acc, t) && Significant(n, acc, s)
    ensures s in d <==> Reaches(n, Members(t), s)
  {
    assert s in d <==> s in multiset(d);
    assert s in multiset(t) <==> s in t;
    if s in t { ReachesSelf(n, Members(t), s); }
  }

  lemma ModelsStart(n: Net, acc: seq<int>, num: seq<int>, cls: seq<ClassInfo>, start: int, d: seq<int>)
    requires multiset(d) == ClosureOf(n, acc, [start])
    ensures Models(n, acc, num, cls, start, [], d)
  {
    assert Members([start]) == {start};
    forall s | Significant(n, acc, s) ensures s in d <==> InReach(n, num, cls, start, [], s) {
      InTarget(n, acc, [start], d, s);
      ReachNothing(n, num, cls, start, s);
    }
  }

  /** One step of the subset construction keeps the meaning. */
  lemma ModelsStep(n: Net, acc: seq<int>, num: seq<int>, cls: seq<ClassInfo>, start: int, w: seq<int>, d: seq<int>,
                   e: int, d': seq<int>)
    requires Tidy(n, 1, n.last) && n.last < |acc| && Models(n, acc, num, cls, start, w, d)
    requires multiset(d') == ClosureOf(n, acc, Follow(n, num, cls, d, e))
    ensures Models(n, acc, num, cls, start, w + [e], d')
  {
    var f := Follow(n, num, cls, d, e);
    forall s | Significant(n, acc, s) ensures s in d' <==> InReach(n, num, cls, start, w + [e], s) {
      InTarget(n, acc, f, d', s);
      ReachMore(n, num, cls, start, w, e, s);
      if Reaches(n, Members(f), s) {
        var c := ReachesOne(n, Members(f), s);
        InFollow(n, num, cls, d, e, c);
        var q :| q in d && Takes(n, num, cls, q, e) && n.t1[q] == c;
        assert Significant(n, acc, q);
      }
      if q :| InReach(n, num, cls, start, w, q) && Takes(n, num, cls, q, e) && Reaches(n, {n.t1[q]}, s) {
        assert Significant(n, acc, q);
        InFollow(n, num, cls, d, e, n.t1[q]);
        ReachesFrom(n, Members(f), n.t1[q], s);
      }
    }
  }

  /** No state takes e exactly when the NFA cannot go on at all. */
  lemma ModelsJam(n: Net, acc: seq<int>, num: seq<int>, cls: seq<ClassInfo>, start: int, w: seq<int>, d: seq<int>,
                  e: int)
    requires Tidy(n, 1, n.last) && n.last < |acc| && Models(n, acc, num, cls, start, w, d)
    requires Closed(n, 1, n.last) && Onward(n, 1, n.last, 0, 0)
    ensures Follow(n, num, cls, d, e) == [] <==> forall s :: !InReach(n, num, cls, start, w + [e], s)
  {
    var f := Follow(n, num, cls, d, e);
    if f != [] {
      InFollow(n, num, cls, d, e, f[0]);
      var q :| q in d && Takes(n, num, cls, q, e) && n.t1[q] == f[0];
      assert Significant(n, acc, q) && InReach(n, num, cls, start, w, q);
      ReachesSelf(n, {f[0]}, f[0]);
      ReachMore(n, num, cls, start, w, e, f[0]);
      assert InReach(n, num, cls, start, w + [e], f[0]);
    } else {
      forall s ensures !InReach(n, num, cls, start, w + [e], s) {
        ReachMore(n, num, cls, start, w, e, s);
        if q :| InReach(n, num, cls, start, w, q) && Takes(n, num, cls, q, e) && Reaches(n, {n.t1[q]}, s) {
          assert Significant(n, acc, q);
          InFollow(n, num, cls, d, e, n.t1[q]);
        }
      }
    }
  }
}
