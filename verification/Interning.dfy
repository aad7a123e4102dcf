/** Recording sets of NFA states as DFA states (dfa.c: snstods), and why only finitely many are ever recorded. */
module Interning {
  import opened Nets
  import opened Machines
  import opened Regex
  import opened Subsets
  import opened Closure
  import opened Patterns
  import opened Sorting
  import opened StateSets

  // ----- sorted lists stand for multisets

  lemma {:induction false} SortedUnique(a: seq<int>, b: seq<int>)
    requires multiset(a) == multiset(b) && Ordered(a, 0, |a|, false) && Ordered(b, 0, |b|, false)
    ensures a == b
  {
    hide Ordered;
    SameSize(a, b);
    if a != [] {
      var k := |a| - 1;
      LastBelow(a, b);
      LastBelow(b, a);
      WithoutLast(a);
      WithoutLast(b);
      OrderedFront(a);
      OrderedFront(b);
      SortedUnique(a[..k], b[..k]);
    }
  }

  lemma WithoutLast(a: seq<int>)
    requires a != []
    ensures var k := |a| - 1; a == a[..k] + [a[k]] && multiset(a[..k]) == multiset(a) - multiset{a[k]}
  {
    var k := |a| - 1;
    assert a == a[..k] + [a[k]];
    assert multiset(a) == multiset(a[..k]) + multiset{a[k]};
  }

  lemma OrderedFront(a: seq<int>)
    requires a != [] && Ordered(a, 0, |a|, false)
    ensures Ordered(a[..|a| - 1], 0, |a| - 1, false)
  {}

  /** The last element of a sorted list is the largest one. */
  lemma LastBelow(a: seq<int>, b: seq<int>)
    requires multiset(a) == multiset(b) && |a| == |b| > 0 && Ordered(b, 0, |b|, false)
    ensures a[|a| - 1] <= b[|b| - 1]
  {
    var x := a[|a| - 1];
    assert x in multiset(b);
    var i :| 0 <= i < |b| && b[i] == x;
    if i < |b| - 1 { assert Key(b[i], false) <= Key(b[|b| - 1], false); }
  }

  lemma SameSize(a: seq<int>, b: seq<int>)
    requires multiset(a) == multiset(b)
    ensures |a| == |b|
  {
    assert |multiset(a)| == |a| && |multiset(b)| == |b|;
  }

  // ----- accepting numbers

  /** a is the lowest accepting number in d, or 0 when there is none. */
  ghost predicate Lowest(acc: seq<int>, d: seq<int>, a: int) {
    if a == 0 then forall x :: !AccIn(acc, d, x)
    else AccIn(acc, d, a) && forall x :: AccIn(acc, d, x) ==> a <= x
  }

  // ----- only finitely many lists

  /** A list that can occur: no symbol state twice, and at most 2 * last elements. */
  ghost predicate Bounded(n: Net, d: seq<int>) {
    && InNet(n, d) && |d| <= 2 * n.last
    && forall s :: Solid(n, s) ==> multiset(d)[s] <= 1
  }

  /** All lists over 1..m of length len. */
  ghost function Lists(m: nat, len: nat): set<seq<int>> {
    if len == 0 then {[]} else set d, x | d in Lists(m, len - 1) && x in Below(m + 1) && x >= 1 :: d + [x]
  }

  /** All lists over 1..m of length at most len. */
  ghost function Universe(m: nat, len: nat): set<seq<int>> {
    Lists(m, len) + if len == 0 then {} else Universe(m, len - 1)
  }

  lemma {:induction false} InLists(m: nat, d: seq<int>)
    requires forall i :: 0 <= i < |d| ==> 1 <= d[i] <= m
    ensures d in Lists(m, |d|)
  {
    if d != [] {
      var k := |d| - 1;
      InLists(m, d[..k]);
      BelowSize(m + 1);
      assert d == d[..k] + [d[k]];
    }
  }

  lemma {:induction false} InUniverse(m: nat, len: nat, d: seq<int>)
    requires |d| <= len && forall i :: 0 <= i < |d| ==> 1 <= d[i] <= m
    ensures d in Universe(m, len)
  {
    if |d| == len { InLists(m, d); } else { InUniverse(m, len - 1, d); }
  }

  /** Distinct lists from the universe are no more than the universe has. */
  lemma UniverseBound(m: nat, len: nat, dss: seq<seq<int>>)
    requires forall i :: 1 <= i < |dss| ==> dss[i] in Universe(m, len)
    requires forall i, j :: 1 <= i < j < |dss| ==> dss[i] != dss[j]
    requires |dss| >= 1
    ensures |dss| - 1 <= |Universe(m, len)|
  {
    ListedSize(dss);
    forall d | d in Listing(dss) ensures d in Universe(m, len) { InListing(dss, d); }
    SubsetSize(Listing(dss), Universe(m, len));
  }

  /** The lists dss[1..] as a set. */
  ghost function Listing(dss: seq<seq<int>>): set<seq<int>> {
    if |dss| <= 1 then {} else Listing(dss[..|dss| - 1]) + {dss[|dss| - 1]}
  }

  lemma {:induction false} InListing(dss: seq<seq<int>>, d: seq<int>)
    ensures d in Listing(dss) <==> exists i :: 1 <= i < |dss| && dss[i] == d
  {
    if |dss| > 1 {
      var k := |dss| - 1;
      InListing(dss[..k], d);
      if i :| 1 <= i < |dss| && dss[i] == d {
        if i < k { assert dss[..k][i] == d; }
      }
    }
  }

  lemma {:induction false} ListedSize(dss: seq<seq<int>>)
    requires |dss| >= 1 && forall i, j :: 1 <= i < j < |dss| ==> dss[i] != dss[j]
    ensures |Listing(dss)| == |dss| - 1
  {
    if |dss| > 1 {
      var k := |dss| - 1;
      ListedSize(dss[..k]);
      InListing(dss[..k], dss[k]);
    }
  }

  /** Following a symbol from a bounded list: no symbol state is reached twice, for it has only one predecessor. */
  lemma FollowBounded(n: Net, num: seq<int>, cls: seq<ClassInfo>, d: seq<int>, e: int)
    requires Bounded(n, d) && Closed(n, 1, n.last) && Lone(n, 1, n.last) && Onward(n, 1, n.last, 0, 0)
    ensures var f := Follow(n, num, cls, d, e); |f| <= n.last && InNet(n, f)
                                                && forall s :: Solid(n, s) ==> multiset(f)[s] <= 1
  {
    var m, f := Matching(n, num, cls, d, e), Follow(n, num, cls, d, e);
    MatchingOnce(n, num, cls, d, e);
    assert Distinct(m) by {
      forall p, q | 0 <= p < q < |m| ensures m[p] != m[q] {
        if m[p] == m[q] { TwiceCounts(m, p, q); }
      }
    }
    assert InNet(n, m);
    assert 0 !in m;
    DistinctSize(m, 0, n.last + 1);
    assert forall i :: 0 <= i < |m| ==> Solid(n, m[i]);
    FollowOnce(n, m, f);
  }

  lemma FollowOnce(n: Net, m: seq<int>, f: seq<int>)
    requires Distinct(m) && |f| == |m| && Closed(n, 1, n.last) && Lone(n, 1, n.last)
    requires forall i :: 0 <= i < |m| ==> Solid(n, m[i]) && f[i] == n.t1[m[i]]
    ensures forall s :: Solid(n, s) ==> multiset(f)[s] <= 1
  {
    hide Lone, Distinct;
    forall s | Solid(n, s) ensures multiset(f)[s] <= 1 {
      if multiset(f)[s] > 1 {
        var p, q := TwiceIn(f, s);
        DistinctLone(n, m, p, q);
      }
    }
  }

  lemma DistinctLone(n: Net, m: seq<int>, p: int, q: int)
    requires Distinct(m) && Lone(n, 1, n.last) && 0 <= p < q < |m|
    requires Solid(n, m[p]) && Solid(n, m[q]) && n.t1[m[p]] == n.t1[m[q]]
    ensures !Solid(n, n.t1[m[p]])
  {}

  /** Only symbol states match, so every state matches at most as often as it occurs. */
  lemma {:induction false} MatchingOnce(n: Net, num: seq<int>, cls: seq<ClassInfo>, d: seq<int>, e: int)
    ensures forall s :: multiset(Matching(n, num, cls, d, e))[s] <= multiset(d)[s]
  {
    if d != [] {
      var k := |d| - 1;
      MatchingOnce(n, num, cls, d[..k], e);
      assert d == d[..k] + [d[k]];
    }
  }

  lemma {:induction false} TwiceIn(f: seq<int>, s: int) returns (p: int, q: int)
    requires multiset(f)[s] > 1
    ensures 0 <= p < q < |f| && f[p] == f[q] == s
  {
    var k := |f| - 1;
    assert f == f[..k] + [f[k]];
    if f[k] == s {
      q := k;
      assert s in multiset(f[..k]);
      assert s in f[..k];
      p :| 0 <= p < k && f[p] == s;
    } else {
      p, q := TwiceIn(f[..k], s);
    }
  }

  /** What epsclosure adds keeps the list bounded. */
  lemma TargetBounded(n: Net, acc: seq<int>, t: seq<int>, d: seq<int>)
    requires |t| <= n.last && InNet(n, t) && (forall s :: Solid(n, s) ==> multiset(t)[s] <= 1)
    requires multiset(d) == ClosureOf(n, acc, t)
    ensures Bounded(n, d)
  {
    var m := NewMembers(n, acc, Members(t));
    assert m <= Below(n.last + 1) - {0} by { BelowSize(n.last + 1); }
    BelowSize(n.last + 1);
    SubsetSize(m, Below(n.last + 1) - {0});
    assert |multiset(d)| == |d| && |multiset(t)| == |t| && |multiset(m)| == |m|;
    forall i | 0 <= i < |d| ensures 1 <= d[i] <= n.last {
      assert d[i] in multiset(d);
      assert d[i] in multiset(t) || d[i] in m;
    }
    forall s | Solid(n, s) ensures multiset(d)[s] <= 1 {
      if s in m { assert s !in multiset(t); }
    }
  }
}
