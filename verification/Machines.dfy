/** The pieces that nfa.c puts together: machines in their own range of states, and what each way of
    connecting them does to the words they accept. */
module Machines {
  import opened Flexdef
  import opened Languages
  import opened Nets

  /** A machine: its first state, its final state and the range of its states. */
  datatype Mach = Mach(start: int, final: int, lo: int, hi: int)

  /** s makes its transition on a symbol. */
  ghost predicate Solid(n: Net, s: int) {
    1 <= s <= n.last && Sized(n) && n.tc[s] != SYM_EPSILON
  }

  /** mkxtion can still add a transition to s. */
  ghost predicate FreeSlot(n: Net, s: int) {
    1 <= s <= n.last && Sized(n) && (n.t1[s] == 0 || (n.tc[s] == SYM_EPSILON && n.t2[s] == 0))
  }

  /** SUPER_FREE_EPSILON: an epsilon state without transitions. */
  ghost predicate SuperFree(n: Net, s: int) {
    1 <= s <= n.last && Sized(n) && n.tc[s] == SYM_EPSILON && n.t1[s] == 0
  }

  /** Second transitions exist on epsilon states only, behind a first one. */
  ghost predicate Tidy(n: Net, lo: int, hi: int) {
    Sized(n) && forall s :: lo <= s <= hi && 1 <= s <= n.last && n.t2[s] != 0 ==> n.tc[s] == SYM_EPSILON && n.t1[s] != 0
  }

  /** No two symbol states lead to the same symbol state. */
  ghost predicate Lone(n: Net, lo: int, hi: int) {
    Sized(n) && forall a, b :: (lo <= a <= hi && lo <= b <= hi && Solid(n, a) && Solid(n, b)
                                && n.t1[a] == n.t1[b] && Solid(n, n.t1[a])) ==> a == b
  }

  /** No symbol state leads to s. */
  ghost predicate Unled(n: Net, lo: int, hi: int, s: int) {
    Sized(n) && forall a :: lo <= a <= hi && Solid(n, a) ==> n.t1[a] != s
  }

  /** Symbol states lead on, but for f and g. */
  ghost predicate Onward(n: Net, lo: int, hi: int, f: int, g: int) {
    Sized(n) && forall a :: lo <= a <= hi && Solid(n, a) && a != f && a != g ==> n.t1[a] != 0
  }

  ghost predicate Region(n: Net, lo: int, hi: int, f: int, g: int) {
    Closed(n, lo, hi) && Tidy(n, lo, hi) && Lone(n, lo, hi) && Onward(n, lo, hi, f, g)
  }

  /** There is a way from s to t. */
  ghost predicate Way(n: Net, s: int, t: int) {
    exists w :: w in Words(n, s, t)
  }

  /** Every state leads to f. */
  ghost predicate Leads(n: Net, lo: int, hi: int, f: int) {
    forall s :: lo <= s <= hi ==> Way(n, s, f)
  }

  /** A machine is self-contained, all its states lead to its final state, and that can take one more transition. */
  ghost predicate IsMachine(n: Net, m: Mach) {
    && m.lo <= m.start <= m.hi && m.lo <= m.final <= m.hi
    && Region(n, m.lo, m.hi, m.final, m.final) && Unled(n, m.lo, m.hi, m.start) && FreeSlot(n, m.final)
    && Leads(n, m.lo, m.hi, m.final)
  }

  /** The words a machine matches: those spelled from its first to its final state. */
  ghost function Accepts(n: Net, m: Mach): Lang {
    Words(n, m.start, m.final)
  }

  // ----- new states and edges

  ghost predicate NewState(n: Net, n': Net, sym: int) {
    && Sized(n) && Sized(n') && n'.last == n.last + 1 && AgreeOn(n, n', 1, n.last)
    && n'.tc[n'.last] == sym && n'.t1[n'.last] == 0 && n'.t2[n'.last] == 0
  }

  /** The effect of mkxtion. */
  ghost predicate NewEdge(n: Net, n': Net, a: int, b: int) {
    && FreeSlot(n, a) && Sized(n') && n'.last == n.last
    && (forall s :: 1 <= s <= n.last ==>
          && n'.tc[s] == n.tc[s]
          && n'.t1[s] == (if s == a && n.t1[a] == 0 then b else n.t1[s])
          && n'.t2[s] == (if s == a && n.t1[a] != 0 then b else n.t2[s]))
  }

  lemma NewEdgeExtends(n: Net, n': Net, a: int, b: int)
    requires NewEdge(n, n', a, b) && b != 0 && Tidy(n, a, a)
    ensures Extended(n, n', a, b)
  {}

  // ----- ways

  lemma WaySelf(n: Net, s: int)
    requires 1 <= s <= n.last
    ensures Way(n, s, s)
  {
    Single(n, s);
  }

  /** A way is not lost when an edge is added, and can go on along this edge. */
  lemma WayMore(n: Net, more: Net, a: int, b: int, s: int, t: int)
    requires Extended(n, more, a, b) && Way(n, s, t)
    ensures Way(more, s, t) && (t == a && 1 <= b <= n.last ==> Way(more, s, b))
  {
    var w :| w in Words(n, s, t);
    var p := Witness(n, s, t, w);
    OldPath(n, more, a, b, s, t, p, w);
    InWords(more, s, t, p, w);
    if t == a && 1 <= b <= n.last {
      Single(more, b);
      JoinWords(more, s, a, b, b, w, Label(more, b));
      assert w + Label(more, b) in Words(more, s, b);
    }
  }

  lemma WayOn(n: Net, a: int, b: int, c: int, d: int)
    requires Way(n, a, b) && Edge(n, b, c) && Way(n, c, d)
    ensures Way(n, a, d)
  {
    var u, v :| u in Words(n, a, b) && v in Words(n, c, d);
    JoinWords(n, a, b, c, d, u, v);
    assert u + v in Words(n, a, d);
  }

  lemma LeadsMore(n: Net, more: Net, a: int, b: int, lo: int, hi: int, f: int)
    requires Extended(n, more, a, b) && Leads(n, lo, hi, f)
    ensures Leads(more, lo, hi, f)
  {
    hide Way;
    forall s | lo <= s <= hi ensures Way(more, s, f) { WayMore(n, more, a, b, s, f); }
  }

  lemma LeadsKept(n: Net, n': Net, lo: int, hi: int, f: int)
    requires Closed(n, lo, hi) && AgreeOn(n, n', lo, hi) && Leads(n, lo, hi, f)
    ensures Leads(n', lo, hi, f)
  {
    hide Words;
    forall s | lo <= s <= hi ensures Way(n', s, f) {
      Frame(n, n', lo, hi, s, f);
      assert Way(n, s, f);
    }
  }

  /** An edge from f1 into the range that leads to f2. */
  lemma LeadsOn(n: Net, lo1: int, hi1: int, f1: int, lo2: int, hi2: int, f2: int, s: int)
    requires Leads(n, lo1, hi1, f1) && Leads(n, lo2, hi2, f2) && Edge(n, f1, s) && lo2 <= s <= hi2
    requires hi1 + 1 == lo2 || hi2 + 1 == lo1
    ensures Leads(n, if lo1 < lo2 then lo1 else lo2, if hi1 > hi2 then hi1 else hi2, f2)
  {
    hide Way;
    forall a | lo1 <= a <= hi1 ensures Way(n, a, f2) { WayOn(n, a, f1, s, f2); }
  }

  /** A machine does not notice what happens outside its range. */
  lemma Kept(n: Net, n': Net, m: Mach)
    requires IsMachine(n, m) && AgreeOn(n, n', m.lo, m.hi)
    ensures IsMachine(n', m) && Accepts(n', m) == Accepts(n, m)
  {
    Frame(n, n', m.lo, m.hi, m.start, m.final);
    LeadsKept(n, n', m.lo, m.hi, m.final);
    forall s | m.lo <= s <= m.hi ensures Solid(n', s) <==> Solid(n, s) {}
    assert Lone(n', m.lo, m.hi) by {
      forall a, b | m.lo <= a <= m.hi && m.lo <= b <= m.hi && Solid(n', a) && Solid(n', b) && n'.t1[a] == n'.t1[b]
          && Solid(n', n'.t1[a])
        ensures a == b
      {
        assert Solid(n, a) && Solid(n, b) && n.t1[a] == n.t1[b] && Solid(n, n.t1[a]);
      }
    }
  }

  lemma EdgeKeeps(n: Net, n': Net, a: int, b: int, lo: int, hi: int)
    requires NewEdge(n, n', a, b) && Closed(n, lo, hi) && !(lo <= a <= hi)
    ensures AgreeOn(n, n', lo, hi) && Closed(n', lo, hi)
  {}

  lemma NewMachine(n: Net, n': Net, sym: int)
    requires NewState(n, n', sym) && n.last >= 0
    ensures var k := n'.last; IsMachine(n', Mach(k, k, k, k))
                              && Accepts(n', Mach(k, k, k, k)) == iset{if sym == SYM_EPSILON then [] else [sym]}
  {
    Isolated(n', n'.last, n'.last);
    WaySelf(n', n'.last);
  }

  // ----- regions

  lemma RegionJoin(n: Net, lo1: int, hi1: int, f1: int, lo2: int, hi2: int, f2: int)
    requires Region(n, lo1, hi1, f1, f1) && Region(n, lo2, hi2, f2, f2) && hi1 + 1 == lo2 && lo1 <= hi1 && lo2 <= hi2
    requires lo1 <= f1 <= hi1 && lo2 <= f2 <= hi2
    ensures Region(n, lo1, hi2, f1, f2)
  {
    assert Lone(n, lo1, hi2) by {
      forall a, b | lo1 <= a <= hi2 && lo1 <= b <= hi2 && Solid(n, a) && Solid(n, b) && n.t1[a] == n.t1[b]
          && Solid(n, n.t1[a])
        ensures a == b
      {}
    }
  }

  lemma RegionEdge(n: Net, n': Net, lo: int, hi: int, f: int, g: int, a: int, b: int)
    requires Region(n, lo, hi, f, g) && NewEdge(n, n', a, b) && lo <= a <= hi && lo <= b <= hi
    requires Solid(n, a) && Solid(n, b) ==> Unled(n, lo, hi, b)
    ensures Region(n', lo, hi, f, g)
    ensures a == f ==> Region(n', lo, hi, g, g)
    ensures a == g ==> Region(n', lo, hi, f, f)
  {
    forall s ensures Solid(n', s) <==> Solid(n, s) {}
    assert Lone(n', lo, hi) by {
      forall x, y | lo <= x <= hi && lo <= y <= hi && Solid(n', x) && Solid(n', y) && n'.t1[x] == n'.t1[y]
          && Solid(n', n'.t1[x])
        ensures x == y
      {
        assert Solid(n, x) && Solid(n, y);
      }
    }
  }

  lemma UnledEdge(n: Net, n': Net, lo: int, hi: int, s: int, a: int, b: int)
    requires Unled(n, lo, hi, s) && NewEdge(n, n', a, b) && (s != b || !Solid(n, a))
    ensures Unled(n', lo, hi, s)
  {
    forall x | lo <= x <= hi && Solid(n', x) ensures n'.t1[x] != s { assert Solid(n, x); }
  }

  lemma UnledJoin(n: Net, lo1: int, hi1: int, lo2: int, hi2: int, s: int)
    requires hi1 + 1 == lo2
    requires (Unled(n, lo1, hi1, s) && Closed(n, lo2, hi2) && 1 <= s < lo2)
             || (Unled(n, lo2, hi2, s) && Closed(n, lo1, hi1) && hi1 < s)
    ensures Unled(n, lo1, hi2, s)
  {}

  /** Two neighbouring machines taken together. */
  lemma Together(n: Net, m1: Mach, m2: Mach)
    requires IsMachine(n, m1) && IsMachine(n, m2) && (m1.hi + 1 == m2.lo || m2.hi + 1 == m1.lo)
    ensures var lo, hi := if m1.lo < m2.lo then m1.lo else m2.lo, if m1.hi > m2.hi then m1.hi else m2.hi;
            Region(n, lo, hi, m1.final, m2.final) && Unled(n, lo, hi, m1.start) && Unled(n, lo, hi, m2.start)
  {
    if m1.hi + 1 == m2.lo {
      RegionJoin(n, m1.lo, m1.hi, m1.final, m2.lo, m2.hi, m2.final);
      UnledJoin(n, m1.lo, m1.hi, m2.lo, m2.hi, m1.start);
      UnledJoin(n, m1.lo, m1.hi, m2.lo, m2.hi, m2.start);
    } else {
      RegionJoin(n, m2.lo, m2.hi, m2.final, m1.lo, m1.hi, m1.final);
      UnledJoin(n, m2.lo, m2.hi, m1.lo, m1.hi, m1.start);
      UnledJoin(n, m2.lo, m2.hi, m1.lo, m1.hi, m2.start);
    }
  }

  // ----- concatenation

  function Linked(m1: Mach, m2: Mach): Mach {
    Mach(m1.start, m2.final, if m1.lo < m2.lo then m1.lo else m2.lo, if m1.hi > m2.hi then m1.hi else m2.hi)
  }

  /** link_machines: an edge from the final state of m1 to m2 concatenates. */
  lemma Link(n: Net, n': Net, m1: Mach, m2: Mach)
    requires IsMachine(n, m1) && IsMachine(n, m2) && (m1.hi + 1 == m2.lo || m2.hi + 1 == m1.lo)
    requires NewEdge(n, n', m1.final, m2.start)
    ensures IsMachine(n', Linked(m1, m2))
    ensures Accepts(n', Linked(m1, m2)) == Cat(Accepts(n, m1), Accepts(n, m2))
  {
    var m := Linked(m1, m2);
    Together(n, m1, m2);
    RegionEdge(n, n', m.lo, m.hi, m1.final, m2.final, m1.final, m2.start);
    UnledEdge(n, n', m.lo, m.hi, m1.start, m1.final, m2.start);
    EdgeKeeps(n, n', m1.final, m2.start, m2.lo, m2.hi);
    LinkWords(n, n', m1, m2);
    NewEdgeExtends(n, n', m1.final, m2.start);
    LeadsMore(n, n', m1.final, m2.start, m1.lo, m1.hi, m1.final);
    LeadsMore(n, n', m1.final, m2.start, m2.lo, m2.hi, m2.final);
    LeadsOn(n', m1.lo, m1.hi, m1.final, m2.lo, m2.hi, m2.final, m2.start);
  }

  lemma LinkWords(n: Net, n': Net, m1: Mach, m2: Mach)
    requires IsMachine(n, m1) && IsMachine(n, m2) && (m1.hi < m2.lo || m2.hi < m1.lo)
    requires NewEdge(n, n', m1.final, m2.start)
    ensures Words(n', m1.start, m2.final) == Cat(Accepts(n, m1), Accepts(n, m2))
  {
    hide Words, Cat, Star, Onward, Lone, Unled;
    NewEdgeExtends(n, n', m1.final, m2.start);
    AddEdge(n, n', m1.final, m2.start, m1.start, m2.final);
    Confined(n, m1.lo, m1.hi, m1.start, m2.final);
    Confined(n, m2.lo, m2.hi, m2.start, m1.final);
    StarEmpty();
    CatUnit(Words(n, m2.start, m2.final));
  }

  // ----- loops

  /** mkposcl on a machine whose final state is a free epsilon state. */
  lemma LoopBack(n: Net, n': Net, m: Mach)
    requires IsMachine(n, m) && SuperFree(n, m.final) && NewEdge(n, n', m.final, m.start)
    ensures IsMachine(n', m) && Accepts(n', m) == Plus(Accepts(n, m))
  {
    RegionEdge(n, n', m.lo, m.hi, m.final, m.final, m.final, m.start);
    UnledEdge(n, n', m.lo, m.hi, m.start, m.final, m.start);
    hide Words, Cat, Star, Onward, Lone, Unled;
    NewEdgeExtends(n, n', m.final, m.start);
    AddEdge(n, n', m.final, m.start, m.start, m.final);
    PlusLoop(Accepts(n, m));
    LeadsMore(n, n', m.final, m.start, m.lo, m.hi, m.final);
  }

  /** A fresh epsilon state e is put in front of m. */
  lemma EpsHead(n: Net, n': Net, e: int, m: Mach)
    requires IsMachine(n, m) && IsMachine(n, Mach(e, e, e, e)) && SuperFree(n, e) && !(m.lo <= e <= m.hi)
    requires NewEdge(n, n', e, m.start)
    ensures Words(n', e, e) == UNIT
    ensures forall t :: m.lo <= t <= m.hi ==> Words(n', e, t) == Words(n, m.start, t)
    ensures forall s, t :: m.lo <= s <= m.hi ==> Words(n', s, t) == Words(n, s, t)
    ensures forall s :: m.lo <= s <= m.hi ==> Words(n', s, e) == iset{}
  {
    NewEdgeExtends(n, n', e, m.start);
    EdgeKeeps(n, n', e, m.start, m.lo, m.hi);
    Isolated(n, e, e);
    Confined(n, m.lo, m.hi, m.start, e);
    hide Words, Cat, Star, Onward, Lone, Unled;
    StarEmpty();
    assert Words(n', e, e) == UNIT by {
      AddEdge(n, n', e, m.start, e, e);
      CatEmpty(Star(iset{}));
      CatEmpty(UNIT);
    }
    forall t | m.lo <= t <= m.hi ensures Words(n', e, t) == Words(n, m.start, t) {
      AddEdge(n, n', e, m.start, e, t);
      Isolated(n, e, t);
      CatUnit(Words(n, m.start, t));
    }
    forall s, t | m.lo <= s <= m.hi ensures Words(n', s, t) == Words(n, s, t) {
      Frame(n, n', m.lo, m.hi, s, t);
    }
    forall s | m.lo <= s <= m.hi ensures Words(n', s, e) == iset{} {
      Confined(n', m.lo, m.hi, s, e);
    }
  }

  /** mkposcl in general: behind m a fresh epsilon state that leads back to its start. */
  lemma LoopEps(n: Net, n1: Net, n2: Net, m: Mach, e: int)
    requires IsMachine(n, m) && IsMachine(n, Mach(e, e, e, e)) && SuperFree(n, e) && m.hi + 1 == e
    requires NewEdge(n, n1, e, m.start) && NewEdge(n1, n2, m.final, e)
    ensures var m' := Mach(m.start, e, m.lo, e); IsMachine(n2, m') && Accepts(n2, m') == Plus(Accepts(n, m))
  {
    var me := Mach(e, e, e, e);
    Together(n, m, me);
    RegionEdge(n, n1, m.lo, e, m.final, e, e, m.start);
    UnledEdge(n, n1, m.lo, e, m.start, e, m.start);
    UnledEdge(n, n1, m.lo, e, e, e, m.start);
    RegionEdge(n1, n2, m.lo, e, m.final, e, m.final, e);
    UnledEdge(n1, n2, m.lo, e, m.start, m.final, e);
    EpsHead(n, n1, e, m);
    hide Words, Cat, Star, Onward, Lone, Unled;
    NewEdgeExtends(n, n1, e, m.start);
    NewEdgeExtends(n1, n2, m.final, e);
    AddEdge(n1, n2, m.final, e, m.start, e);
    CatUnit(Star(Accepts(n, m)));
    BothMore(n, n1, n2, e, m.start, m.final, e, m.lo, m.hi, m.final);
    BothMore(n, n1, n2, e, m.start, m.final, e, e, e, e);
    LeadsOn(n2, m.lo, m.hi, m.final, e, e, e, e);
  }

  lemma BothMore(n: Net, n1: Net, n2: Net, a: int, b: int, c: int, d: int, lo: int, hi: int, f: int)
    requires Extended(n, n1, a, b) && Extended(n1, n2, c, d) && Leads(n, lo, hi, f)
    ensures Leads(n2, lo, hi, f)
  {
    LeadsMore(n, n1, a, b, lo, hi, f);
    LeadsMore(n1, n2, c, d, lo, hi, f);
  }

  /** mkopt: behind a fresh epsilon state e in front of m, an edge around m to its free final state. */
  lemma Skip(n: Net, n1: Net, n2: Net, m: Mach, e: int)
    requires IsMachine(n, m) && IsMachine(n, Mach(e, e, e, e)) && SuperFree(n, e) && m.hi + 1 == e
             && SuperFree(n, m.final)
    requires NewEdge(n, n1, e, m.start) && NewEdge(n1, n2, e, m.final)
    ensures var m' := Mach(e, m.final, m.lo, e); IsMachine(n2, m') && Accepts(n2, m') == UNIT + Accepts(n, m)
  {
    var me := Mach(e, e, e, e);
    Together(n, m, me);
    RegionEdge(n, n1, m.lo, e, m.final, e, e, m.start);
    UnledEdge(n, n1, m.lo, e, e, e, m.start);
    RegionEdge(n1, n2, m.lo, e, m.final, m.final, e, m.final);
    UnledEdge(n1, n2, m.lo, e, e, e, m.final);
    EpsHead(n, n1, e, m);
    SkipWords(n1, n2, m.final, e);
    NewEdgeExtends(n, n1, e, m.start);
    NewEdgeExtends(n1, n2, e, m.final);
    BothMore(n, n1, n2, e, m.start, e, m.final, m.lo, m.hi, m.final);
    BothMore(n, n1, n2, e, m.start, e, m.final, e, e, e);
    LeadsOn(n2, e, e, e, m.lo, m.hi, m.final, m.start);
  }

  lemma SkipWords(n1: Net, n2: Net, f: int, e: int)
    requires SuperFree(n1, f) && Tidy(n1, f, f) && Tidy(n1, e, e) && e != f && NewEdge(n1, n2, e, f)
             && Words(n1, e, e) == UNIT
    ensures Words(n2, e, f) == UNIT + Words(n1, e, f)
  {
    NewEdgeExtends(n1, n2, e, f);
    Collect(n1, n2, e, f, e, f);
  }

  // ----- alternatives

  /** mkor so far: a fresh epsilon state e leads to both m1 and m2. */
  ghost predicate Forked(n: Net, n2: Net, e: int, m1: Mach, m2: Mach) {
    && IsMachine(n, m1) && IsMachine(n, m2) && m1.hi + 1 == m2.lo && m2.hi + 1 == e
    && Region(n2, m1.lo, e, m1.final, m2.final) && Unled(n2, m1.lo, e, e)
    && AgreeOn(n, n2, m1.lo, m1.hi) && AgreeOn(n, n2, m2.lo, m2.hi)
    && Words(n2, e, m1.final) == Accepts(n, m1) && Words(n2, e, m2.final) == Accepts(n, m2)
  }

  lemma Fork(n: Net, n1: Net, n2: Net, e: int, m1: Mach, m2: Mach)
    requires IsMachine(n, m1) && IsMachine(n, m2) && m1.hi + 1 == m2.lo && m2.hi + 1 == e
    requires IsMachine(n, Mach(e, e, e, e)) && SuperFree(n, e) && NewEdge(n, n1, e, m1.start)
             && NewEdge(n1, n2, e, m2.start)
    ensures Forked(n, n2, e, m1, m2)
  {
    Together(n, m1, m2);
    UnledJoin(n, m1.lo, m2.hi, e, e, m1.start);
    UnledJoin(n, m1.lo, m2.hi, e, e, m2.start);
    UnledJoin(n, m1.lo, m2.hi, e, e, e);
    assert Region(n, m1.lo, e, m1.final, m2.final) by { RegionEps(n, m1.lo, m2.hi, m1.final, m2.final, e); }
    RegionEdge(n, n1, m1.lo, e, m1.final, m2.final, e, m1.start);
    RegionEdge(n1, n2, m1.lo, e, m1.final, m2.final, e, m2.start);
    UnledEdge(n, n1, m1.lo, e, e, e, m1.start);
    UnledEdge(n1, n2, m1.lo, e, e, e, m2.start);
    EdgeKeeps(n, n1, e, m1.start, m1.lo, m1.hi);
    EdgeKeeps(n, n1, e, m1.start, m2.lo, m2.hi);
    EdgeKeeps(n1, n2, e, m2.start, m1.lo, m1.hi);
    EdgeKeeps(n1, n2, e, m2.start, m2.lo, m2.hi);
    EpsHead(n, n1, e, m1);
    ForkWords(n, n1, n2, e, m1, m2);
  }

  lemma RegionEps(n: Net, lo: int, hi: int, f: int, g: int, e: int)
    requires Region(n, lo, hi, f, g) && e == hi + 1 && IsMachine(n, Mach(e, e, e, e)) && SuperFree(n, e) && lo <= hi
    ensures Region(n, lo, e, f, g)
  {
    assert Lone(n, lo, e) by {
      forall a, b | lo <= a <= e && lo <= b <= e && Solid(n, a) && Solid(n, b) && n.t1[a] == n.t1[b]
          && Solid(n, n.t1[a])
        ensures a == b
      {}
    }
  }

  lemma ForkWords(n: Net, n1: Net, n2: Net, e: int, m1: Mach, m2: Mach)
    requires IsMachine(n, m1) && IsMachine(n, m2) && m1.hi + 1 == m2.lo && m2.hi + 1 == e
    requires AgreeOn(n, n1, m2.lo, m2.hi) && NewEdge(n1, n2, e, m2.start) && Tidy(n1, e, e)
    requires Words(n1, e, e) == UNIT && Closed(n1, m2.lo, m2.hi)
    requires IsMachine(n, Mach(e, e, e, e)) && SuperFree(n, e) && NewEdge(n, n1, e, m1.start)
    requires forall t :: m1.lo <= t <= m1.hi ==> Words(n1, e, t) == Words(n, m1.start, t)
    ensures Words(n2, e, m1.final) == Accepts(n, m1) && Words(n2, e, m2.final) == Accepts(n, m2)
  {
    NewEdgeExtends(n1, n2, e, m2.start);
    NewEdgeExtends(n, n1, e, m1.start);
    Confined(n1, m2.lo, m2.hi, m2.start, e);
    Confined(n1, m2.lo, m2.hi, m2.start, m1.final);
    Frame(n, n1, m2.lo, m2.hi, m2.start, m2.final);
    EpsHeadElsewhere(n, n1, e, m1, m2.final);
    hide Words, Cat, Star, Onward, Lone, Unled, Region;
    OneWay(n1, n2, e, m2.start, e, m1.final);
    CatEmpty(UNIT);
    NoMore(Words(n1, e, m1.final), iset{});
    OneWay(n1, n2, e, m2.start, e, m2.final);
    CatUnit(Accepts(n, m2));
    NoMore(Accepts(n, m2), iset{});
  }

  lemma EpsHeadElsewhere(n: Net, n': Net, e: int, m: Mach, t: int)
    requires IsMachine(n, m) && IsMachine(n, Mach(e, e, e, e)) && SuperFree(n, e) && !(m.lo <= e <= m.hi)
    requires NewEdge(n, n', e, m.start) && t != e && !(m.lo <= t <= m.hi)
    ensures Words(n', e, t) == iset{}
  {
    NewEdgeExtends(n, n', e, m.start);
    Isolated(n, e, t);
    Confined(n, m.lo, m.hi, m.start, e);
    Confined(n, m.lo, m.hi, m.start, t);
    hide Words, Cat, Star, Onward, Lone, Unled, Region;
    OneWay(n, n', e, m.start, e, t);
    CatEmpty(Words(n, e, e));
  }

  /** After the fork every state leads to one of the final states. */
  lemma ForkLeads(n: Net, n2: Net, e: int, m1: Mach, m2: Mach, s: int)
    requires Forked(n, n2, e, m1, m2) && m1.lo <= s <= e
    ensures Way(n2, s, m1.final) || Way(n2, s, m2.final)
  {
    hide Words;
    if s == e {
      assert Way(n, m1.start, m1.final);
    } else if s <= m1.hi {
      LeadsKept(n, n2, m1.lo, m1.hi, m1.final);
    } else {
      LeadsKept(n, n2, m2.lo, m2.hi, m2.final);
    }
  }

  /** mkor when one of the final states, f, is a free epsilon state: the other, g, leads to it. */
  lemma OrInto(n: Net, n2: Net, n3: Net, e: int, m1: Mach, m2: Mach, f: int, g: int)
    requires Forked(n, n2, e, m1, m2) && ((f == m1.final && g == m2.final) || (f == m2.final && g == m1.final))
    requires SuperFree(n2, f) && FreeSlot(n2, g) && NewEdge(n2, n3, g, f)
    ensures var m := Mach(e, f, m1.lo, e); IsMachine(n3, m) && Accepts(n3, m) == Accepts(n, m1) + Accepts(n, m2)
  {
    RegionEdge(n2, n3, m1.lo, e, m1.final, m2.final, g, f);
    UnledEdge(n2, n3, m1.lo, e, e, g, f);
    NewEdgeExtends(n2, n3, g, f);
    Collect(n2, n3, g, f, e, f);
    hide Words, Way;
    forall s | m1.lo <= s <= e ensures Way(n3, s, f) {
      ForkLeads(n, n2, e, m1, m2, s);
      if Way(n2, s, f) { WayMore(n2, n3, g, f, s, f); } else { WayMore(n2, n3, g, f, s, g); }
    }
  }

  /** mkor otherwise: both final states lead to a fresh epsilon state e2. */
  lemma OrEps(n: Net, n2: Net, n3: Net, n4: Net, e: int, e2: int, m1: Mach, m2: Mach)
    requires Forked(n, n2, e, m1, m2) && e2 == e + 1 && IsMachine(n2, Mach(e2, e2, e2, e2)) && SuperFree(n2, e2)
    requires NewEdge(n2, n3, m1.final, e2) && NewEdge(n3, n4, m2.final, e2)
    ensures var m := Mach(e, e2, m1.lo, e2); IsMachine(n4, m) && Accepts(n4, m) == Accepts(n, m1) + Accepts(n, m2)
  {
    RegionEps(n2, m1.lo, e, m1.final, m2.final, e2);
    UnledJoin(n2, m1.lo, e, e2, e2, e);
    RegionEdge(n2, n3, m1.lo, e2, m1.final, m2.final, m1.final, e2);
    UnledEdge(n2, n3, m1.lo, e2, e, m1.final, e2);
    RegionEdge(n3, n4, m1.lo, e2, m2.final, m2.final, m2.final, e2);
    UnledEdge(n3, n4, m1.lo, e2, e, m2.final, e2);
    OrEpsWords(n2, n3, n4, e, e2, m1, m2);
    NewEdgeExtends(n2, n3, m1.final, e2);
    NewEdgeExtends(n3, n4, m2.final, e2);
    hide Words, Way;
    forall s | m1.lo <= s <= e2 ensures Way(n4, s, e2) {
      if s == e2 {
        WaySelf(n4, e2);
      } else {
        ForkLeads(n, n2, e, m1, m2, s);
        if Way(n2, s, m1.final) {
          WayMore(n2, n3, m1.final, e2, s, m1.final);
          WayMore(n3, n4, m2.final, e2, s, e2);
        } else {
          WayMore(n2, n3, m1.final, e2, s, m2.final);
          WayMore(n3, n4, m2.final, e2, s, m2.final);
        }
      }
    }
  }

  lemma OrEpsWords(n2: Net, n3: Net, n4: Net, e: int, e2: int, m1: Mach, m2: Mach)
    requires Region(n2, m1.lo, e, m1.final, m2.final) && e2 == e + 1 && SuperFree(n2, e2) && Tidy(n2, e2, e2)
    requires m1.lo <= m1.final < e && m1.lo <= m2.final < e && m1.final != m2.final
    requires NewEdge(n2, n3, m1.final, e2) && NewEdge(n3, n4, m2.final, e2)
    ensures Words(n4, e, e2) == Words(n2, e, m1.final) + Words(n2, e, m2.final)
  {
    NewEdgeExtends(n2, n3, m1.final, e2);
    NewEdgeExtends(n3, n4, m2.final, e2);
    Confined(n2, m1.lo, e, e, e2);
    hide Words, Cat, Star, Onward, Lone, Unled;
    Collect(n2, n3, m1.final, e2, e, m2.final);
    Collect(n3, n4, m2.final, e2, e, e2);
    NoMore(Words(n2, e, m1.final), iset{});
  }

  // ----- copies

  function Shifted(m: Mach, off: int): Mach {
    Mach(m.start + off, m.final + off, m.lo + off, m.hi + off)
  }

  /** dupmachine: a copied machine is a machine, and accepts the same words. */
  lemma Copy(n: Net, n': Net, m: Mach, off: int)
    requires IsMachine(n, m) && Copied(n, n', m.lo, m.hi, off)
    ensures IsMachine(n', Shifted(m, off)) && Accepts(n', Shifted(m, off)) == Accepts(n, m)
  {
    hide Words, Leads, Lone;
    Shift(n, n', m.lo, m.hi, off, m.start, m.final);
    CopyBack(n, n', m.lo, m.hi, off);
    CopyLone(n, n', m.lo, m.hi, off);
    CopyRest(n, n', m, off);
    CopiedUse(n, n', m.lo, m.hi, off, m.final);
    CopyLeads(n, n', m, off);
  }

  lemma CopyLeads(n: Net, n': Net, m: Mach, off: int)
    requires IsMachine(n, m) && Copied(n, n', m.lo, m.hi, off)
    ensures Leads(n', m.lo + off, m.hi + off, m.final + off)
  {
    hide Words, Copied;
    var f := m.final + off;
    forall s | m.lo + off <= s <= m.hi + off ensures Way(n', s, f) {
      Shift(n, n', m.lo, m.hi, off, s - off, m.final);
      assert Way(n, s - off, m.final);
    }
  }

  lemma CopyLone(n: Net, n': Net, lo: int, hi: int, off: int)
    requires Closed(n, lo, hi) && Copied(n, n', lo, hi, off) && Lone(n, lo, hi)
    ensures Lone(n', lo + off, hi + off)
  {
    CopyBack(n, n', lo, hi, off);
    hide Copied;
    forall a, b | lo + off <= a <= hi + off && lo + off <= b <= hi + off && Solid(n', a) && Solid(n', b)
                  && n'.t1[a] == n'.t1[b] && Solid(n', n'.t1[a])
      ensures a == b
    {
      CopiedUse(n, n', lo, hi, off, a - off);
      CopiedUse(n, n', lo, hi, off, b - off);
      CopiedUse(n, n', lo, hi, off, n.t1[a - off]);
      assert n.t1[a - off] == n.t1[b - off];
    }
  }

  lemma CopyRest(n: Net, n': Net, m: Mach, off: int)
    requires IsMachine(n, m) && Copied(n, n', m.lo, m.hi, off)
    ensures var m' := Shifted(m, off);
            Tidy(n', m'.lo, m'.hi) && Unled(n', m'.lo, m'.hi, m'.start) && Onward(n', m'.lo, m'.hi, m'.final, m'.final)
  {
    CopyBack(n, n', m.lo, m.hi, off);
    var m' := Shifted(m, off);
    hide Copied, Lone;
    forall s | m'.lo <= s <= m'.hi
      ensures n'.t2[s] != 0 ==> n'.tc[s] == SYM_EPSILON && n'.t1[s] != 0
      ensures Solid(n', s) ==> n'.t1[s] != m'.start && (s != m'.final ==> n'.t1[s] != 0)
    {
      CopiedUse(n, n', m.lo, m.hi, off, s - off);
      var r := s - off;
      assert m.lo <= r <= m.hi && (n.t1[r] == 0 || m.lo <= n.t1[r]);
    }
  }

  lemma CopiedUse(n: Net, n': Net, lo: int, hi: int, off: int, s: int)
    requires Copied(n, n', lo, hi, off) && lo <= s <= hi
    ensures CopiedAt(n, n', s, off) && (Solid(n', s + off) <==> Solid(n, s))
  {}
}
