/** epsclosure (dfa.c): the stack of visited states, with the visit marks hidden in trans1. */
module Closure {
  import opened Flexdef
  import opened Nets
  import opened Machines
  import opened Subsets
  import opened Patterns

  /** trans1 with the states of k marked. */
  ghost predicate Marked(t0: seq<int>, tr: seq<int>, k: seq<int>) {
    |tr| == |t0| && forall s :: 0 <= s < |t0| ==> tr[s] == if s in k then t0[s] - MARKER_DIFFERENCE else t0[s]
  }

  /** The accepting numbers of the states in k, in order. */
  ghost function Accs(acc: seq<int>, k: seq<int>): seq<int> {
    if k == [] then []
    else var i := |k| - 1;
         Accs(acc, k[..i]) + (if 0 <= k[i] < |acc| && acc[k[i]] != 0 then [acc[k[i]]] else [])
  }

  /** The significant states of k, in order. */
  ghost function Kept(n: Net, acc: seq<int>, k: seq<int>): seq<int> {
    if k == [] then []
    else var i := |k| - 1;
         Kept(n, acc, k[..i]) + (if Significant(n, acc, k[i]) then [k[i]] else [])
  }

  /** The sum of the members of m up to k. */
  ghost function SumIn(m: set<int>, k: nat): int {
    if k == 0 then 0 else SumIn(m, k - 1) + (if k in m then k else 0)
  }

  lemma {:induction false} SumMore(m: set<int>, k: nat, x: int)
    requires 1 <= x && x !in m
    ensures SumIn(m + {x}, k) == SumIn(m, k) + if x <= k then x else 0
  {
    if k > 0 { SumMore(m, k - 1, x); }
  }

  lemma {:induction false} SumNone(k: nat)
    ensures SumIn({}, k) == 0
  {
    if k > 0 { SumNone(k - 1); }
  }

  // ----- the NFA while epsclosure runs

  /** What epsclosure relies on: transitions stay inside, and the accepting numbers are 1..numRules, each on one
      state. */
  ghost predicate Sane(n: Net, acc: seq<int>, numRules: int) {
    && Closed(n, 1, n.last) && Tidy(n, 1, n.last) && n.last < |acc| && n.last < MARKER_DIFFERENCE && 0 <= n.last
    && (forall s :: 1 <= s <= n.last ==> 0 <= acc[s] <= numRules && (acc[s] != 0 ==> !Solid(n, s)))
    && (forall a, b :: 1 <= a <= n.last && 1 <= b <= n.last && acc[a] == acc[b] != 0 ==> a == b)
  }

  ghost predicate InNet(n: Net, k: seq<int>) {
    forall i :: 0 <= i < |k| ==> 1 <= k[i] <= n.last
  }

  /** The stack holds each visited state once, and accs their accepting numbers. */
  ghost predicate Visited(n: Net, acc: seq<int>, k: seq<int>, accs: seq<int>) {
    Distinct(k) && InNet(n, k) && accs == Accs(acc, k)
  }

  lemma VisitedMore(n: Net, acc: seq<int>, k: seq<int>, accs: seq<int>, s: int)
    requires Visited(n, acc, k, accs) && s !in k && 1 <= s <= n.last < |acc|
    ensures Visited(n, acc, k + [s], if acc[s] != 0 then accs + [acc[s]] else accs)
  {
    assert (k + [s])[..|k|] == k;
  }

  lemma VisitedSize(n: Net, acc: seq<int>, k: seq<int>, accs: seq<int>)
    requires Visited(n, acc, k, accs) && n.last >= 0
    ensures |k| <= n.last
  {
    DistinctSize(k, 0, n.last + 1);
  }

  /** There are at most as many accepting numbers as rules. */
  lemma AccsSize(n: Net, acc: seq<int>, k: seq<int>, numRules: int)
    requires Sane(n, acc, numRules) && Distinct(k) && InNet(n, k) && 0 <= numRules
    ensures |Accs(acc, k)| <= numRules && forall i :: 0 <= i < |Accs(acc, k)| ==> 1 <= Accs(acc, k)[i] <= numRules
  {
    AccsDistinct(n, acc, k, numRules);
    DistinctSize(Accs(acc, k), 0, numRules + 1);
  }

  lemma {:induction false} AccsDistinct(n: Net, acc: seq<int>, k: seq<int>, numRules: int)
    requires Sane(n, acc, numRules) && Distinct(k) && InNet(n, k)
    ensures Distinct(Accs(acc, k)) && forall i :: 0 <= i < |Accs(acc, k)| ==> 1 <= Accs(acc, k)[i] <= numRules
    ensures forall a :: a in Accs(acc, k) ==> AccFrom(acc, k, a)
  {
    if k != [] {
      var i := |k| - 1;
      AccsDistinct(n, acc, k[..i], numRules);
      var c := Accs(acc, k[..i]);
      forall a | a in c ensures AccFrom(acc, k, a) && a != acc[k[i]] {
        var j :| 0 <= j < i && 0 <= k[..i][j] < |acc| && acc[k[..i][j]] == a && a != 0;
        assert k[j] == k[..i][j];
      }
      if acc[k[i]] != 0 { assert AccFrom(acc, k, acc[k[i]]); }
    }
  }

  ghost predicate AccFrom(acc: seq<int>, k: seq<int>, a: int) {
    exists j :: 0 <= j < |k| && 0 <= k[j] < |acc| && acc[k[j]] == a && a != 0
  }

  lemma {:induction false} InAccs(acc: seq<int>, k: seq<int>, s: int)
    requires s in k && 0 <= s < |acc| && acc[s] != 0
    ensures acc[s] in Accs(acc, k)
  {
    var i := |k| - 1;
    if k[i] != s {
      assert s in k[..i];
      InAccs(acc, k[..i], s);
    }
  }

  lemma {:induction false} InKept(n: Net, acc: seq<int>, k: seq<int>)
    ensures forall s :: s in Kept(n, acc, k) <==> s in k && Significant(n, acc, s)
    ensures Distinct(k) ==> Distinct(Kept(n, acc, k))
  {
    if k != [] {
      InKept(n, acc, k[..|k| - 1]);
      assert k == k[..|k| - 1] + [k[|k| - 1]];
    }
  }

  // ----- the first loop: the states given

  /** The first loop before position j of t: the stack k has exactly the states seen so far. */
  ghost predicate Seeding(n: Net, t: seq<int>, j: int, k: seq<int>, hashval: int) {
    && 0 <= j <= |t| && InNet(n, t) && n.last >= 0
    && (forall s :: s in k <==> s in t[..j]) && hashval == SumIn(Members(k), n.last)
  }

  lemma SeedNew(n: Net, t: seq<int>, j: int, k: seq<int>, hashval: int)
    requires Seeding(n, t, j, k, hashval) && j < |t| && t[j] !in k
    ensures Seeding(n, t, j + 1, k + [t[j]], hashval + t[j])
  {
    assert t[..j + 1] == t[..j] + [t[j]];
    assert Members(k + [t[j]]) == Members(k) + {t[j]};
    SumMore(Members(k), n.last, t[j]);
  }

  lemma SeedOld(n: Net, t: seq<int>, j: int, k: seq<int>, hashval: int)
    requires Seeding(n, t, j, k, hashval) && j < |t| && t[j] in k
    ensures Seeding(n, t, j + 1, k, hashval)
  {
    assert t[..j + 1] == t[..j] + [t[j]];
  }

  lemma SeedStart(n: Net, t: seq<int>)
    requires InNet(n, t) && n.last >= 0
    ensures Seeding(n, t, 0, [], 0)
  {
    SumNone(n.last);
    assert Members([]) == {};
  }

  // ----- the second loop: following epsilon transitions

  /** The second loop before stack position p: k0 was there at its start; t is t0 with the significant
      states visited since. */
  ghost predicate Spreading(n: Net, acc: seq<int>, t0: seq<int>, k0: seq<int>, k: seq<int>, p: int, t: seq<int>,
                            hashval: int) {
    && k0 <= k && 0 <= p <= |k| && (forall s :: s in k0 <==> s in t0) && n.last >= 0
    && t == t0 + Kept(n, acc, k[|k0|..]) && hashval == SumIn(Members(t), n.last)
    && (forall s :: s in k ==> Reaches(n, Members(t0), s))
    && (forall i, b :: 0 <= i < p && !Solid(n, k[i]) && Edge(n, k[i], b) ==> b in k)
  }

  lemma SpreadStart(n: Net, acc: seq<int>, t0: seq<int>, k: seq<int>, hashval: int)
    requires Seeding(n, t0, |t0|, k, hashval) && InNet(n, k)
    ensures Spreading(n, acc, t0, k, k, 0, t0, hashval)
  {
    assert t0[..|t0|] == t0 && t0 + [] == t0 && k[|k|..] == [];
    assert Members(k) == Members(t0);
    forall s | s in k ensures Reaches(n, Members(t0), s) { ReachesSelf(n, Members(t0), s); }
  }

  /** A successor s of the state at position p is visited for the first time. */
  lemma SpreadNew(n: Net, acc: seq<int>, t0: seq<int>, k0: seq<int>, k: seq<int>, p: int, t: seq<int>, hashval: int,
                  s: int)
    requires Spreading(n, acc, t0, k0, k, p, t, hashval) && p < |k| && Distinct(k) && InNet(n, k)
    requires !Solid(n, k[p]) && Edge(n, k[p], s) && s !in k && 1 <= s <= n.last
    ensures Spreading(n, acc, t0, k0, k + [s], p, if Significant(n, acc, s) then t + [s] else t,
                      if Significant(n, acc, s) then hashval + s else hashval)
  {
    hide Kept, SumIn, Reaches, Significant;
    SpreadInside(n, acc, t0, k0, k, p, t, hashval);
    KeptMore(n, acc, k, |k0|, s);
    ReachesStep(n, Members(t0), k[p], s);
    assert Members(t + [s]) == Members(t) + {s};
    SumMore(Members(t), n.last, s);
    assert k0 <= k + [s];
  }

  lemma KeptMore(n: Net, acc: seq<int>, k: seq<int>, i: int, s: int)
    requires 0 <= i <= |k|
    ensures Kept(n, acc, (k + [s])[i..]) == Kept(n, acc, k[i..]) + if Significant(n, acc, s) then [s] else []
  {
    assert (k + [s])[i..] == k[i..] + [s];
    assert (k[i..] + [s])[..|k| - i] == k[i..];
  }

  lemma SpreadInside(n: Net, acc: seq<int>, t0: seq<int>, k0: seq<int>, k: seq<int>, p: int, t: seq<int>, hashval: int)
    requires Spreading(n, acc, t0, k0, k, p, t, hashval)
    ensures forall s :: s in t ==> s in k
    ensures Members(t0) <= Members(k) && k == k0 + k[|k0|..]
  {
    InKept(n, acc, k[|k0|..]);
    assert k == k0 + k[|k0|..];
    forall s | s in t ensures s in k {
      if s in t0 { assert s in k0; } else { assert s in Kept(n, acc, k[|k0|..]); }
    }
  }

  /** The state at position p is done. */
  lemma SpreadNext(n: Net, acc: seq<int>, t0: seq<int>, k0: seq<int>, k: seq<int>, p: int, t: seq<int>, hashval: int)
    requires Spreading(n, acc, t0, k0, k, p, t, hashval) && p < |k|
    requires forall b :: !Solid(n, k[p]) && Edge(n, k[p], b) ==> b in k
    ensures Spreading(n, acc, t0, k0, k, p + 1, t, hashval)
  {}

  /** The result: the list is the target multiset, and the accepting numbers are those of its members. */
  lemma SpreadDone(n: Net, acc: seq<int>, t0: seq<int>, k0: seq<int>, k: seq<int>, t: seq<int>, hashval: int,
                   accs: seq<int>)
    requires Spreading(n, acc, t0, k0, k, |k|, t, hashval) && Visited(n, acc, k, accs) && n.last < |acc|
    ensures multiset(t) == ClosureOf(n, acc, t0) && hashval == SumIn(Members(t), n.last)
    ensures forall a :: a in accs <==> exists s :: s in t && 0 <= s < |acc| && acc[s] == a && a != 0
    ensures InNet(n, t0) ==> InNet(n, t)
  {
    SpreadNewMembers(n, acc, t0, k0, k, t, hashval);
    InKept(n, acc, k[|k0|..]);
    DistinctTail(k, |k0|);
    DistinctMultiset(Kept(n, acc, k[|k0|..]));
    assert Members(Kept(n, acc, k[|k0|..])) == NewMembers(n, acc, Members(t0));
    SpreadAccs(n, acc, t0, k0, k, t, hashval, accs);
  }

  lemma DistinctTail(k: seq<int>, i: int)
    requires Distinct(k) && 0 <= i <= |k|
    ensures Distinct(k[i..])
  {}

  lemma SpreadNewMembers(n: Net, acc: seq<int>, t0: seq<int>, k0: seq<int>, k: seq<int>, t: seq<int>, hashval: int)
    requires Spreading(n, acc, t0, k0, k, |k|, t, hashval) && Distinct(k) && InNet(n, k)
    ensures forall s :: s in Kept(n, acc, k[|k0|..]) <==> s in NewMembers(n, acc, Members(t0))
  {
    InKept(n, acc, k[|k0|..]);
    SpreadInside(n, acc, t0, k0, k, |k|, t, hashval);
    SpreadClosed(n, acc, t0, k0, k, t, hashval);
    hide Kept, SumIn, Reaches, EpsClosed;
    forall s ensures s in Kept(n, acc, k[|k0|..]) <==> s in NewMembers(n, acc, Members(t0)) {
      if s in k[|k0|..] {
        var i :| |k0| <= i < |k| && k[i] == s;
        assert s !in k0;
      }
      if s in NewMembers(n, acc, Members(t0)) {
        ReachesClosed(n, Members(t0), Members(k), s);
        assert s !in k0;
      }
    }
  }

  lemma SpreadClosed(n: Net, acc: seq<int>, t0: seq<int>, k0: seq<int>, k: seq<int>, t: seq<int>, hashval: int)
    requires Spreading(n, acc, t0, k0, k, |k|, t, hashval)
    ensures EpsClosed(n, Members(k))
  {
    hide Kept, SumIn, Reaches;
    forall a, b | a in Members(k) && !Solid(n, a) && Edge(n, a, b) ensures b in Members(k) {
      var i :| 0 <= i < |k| && k[i] == a;
    }
  }

  lemma SpreadAccs(n: Net, acc: seq<int>, t0: seq<int>, k0: seq<int>, k: seq<int>, t: seq<int>, hashval: int,
                   accs: seq<int>)
    requires Spreading(n, acc, t0, k0, k, |k|, t, hashval) && Visited(n, acc, k, accs) && n.last < |acc|
    ensures forall a :: a in accs <==> exists s :: s in t && 0 <= s < |acc| && acc[s] == a && a != 0
    ensures InNet(n, t0) ==> InNet(n, t)
  {
    InKept(n, acc, k[|k0|..]);
    forall a ensures a in accs <==> exists s :: s in t && 0 <= s < |acc| && acc[s] == a && a != 0 {
      if a in accs {
        AccsFrom(acc, k, a);
        var j :| 0 <= j < |k| && 0 <= k[j] < |acc| && acc[k[j]] == a && a != 0;
        var s := k[j];
        if s !in k0 { assert s in k[|k0|..]; }
        assert s in t;
      }
      if s :| s in t && 0 <= s < |acc| && acc[s] == a && a != 0 {
        assert s in t0 || s in Kept(n, acc, k[|k0|..]);
        assert s in k;
        InAccs(acc, k, s);
      }
    }
    if InNet(n, t0) {
      forall i | 0 <= i < |t| ensures 1 <= t[i] <= n.last {
        if i >= |t0| { assert t[i] in Kept(n, acc, k[|k0|..]); }
      }
    }
  }

  lemma {:induction false} AccsFrom(acc: seq<int>, k: seq<int>, a: int)
    requires a in Accs(acc, k)
    ensures AccFrom(acc, k, a)
  {
    var i := |k| - 1;
    if a in Accs(acc, k[..i]) {
      AccsFrom(acc, k[..i], a);
      var j :| 0 <= j < i && 0 <= k[..i][j] < |acc| && acc[k[..i][j]] == a && a != 0;
      assert k[j] == k[..i][j];
    } else {
      assert acc[k[i]] == a;
    }
  }

  /** A list without repetitions, as a multiset. */
  lemma {:induction false} DistinctMultiset(s: seq<int>)
    requires Distinct(s)
    ensures multiset(s) == multiset(Members(s))
  {
    if s == [] {
      assert Members(s) == {};
    } else {
      var k := |s| - 1;
      DistinctMultiset(s[..k]);
      assert s == s[..k] + [s[k]];
      assert Members(s) == Members(s[..k]) + {s[k]};
      assert s[k] !in Members(s[..k]);
    }
  }
}
