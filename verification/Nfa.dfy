/** The operators that build machines out of NFA states (nfa.c). */
module Nfa {
  import opened Flexdef
  import opened Results
  import opened Languages
  import opened Nets
  import opened Machines
  import opened Ccl
  import Ecs

  /** The values of the global arrays of nfa.c. */
  datatype Arrays = Arrays(net: Net, firstst: seq<int>, lastst: seq<int>, finalst: seq<int>, accptnum: seq<int>)

  ghost predicate Fits(a: Arrays) {
    Sized(a.net) && a.net.last < |a.firstst| && a.net.last < |a.lastst| && a.net.last < |a.finalst|
        && a.net.last < |a.accptnum|
  }

  /** The machine that m names. */
  ghost function At(a: Arrays, m: int): Mach {
    if Fits(a) && 1 <= m <= a.net.last then Mach(m, a.finalst[m], a.firstst[m], a.lastst[m]) else Mach(0, 0, 0, 0)
  }

  /** No state of lo..hi accepts. */
  ghost predicate Quiet(acc: seq<int>, lo: int, hi: int) {
    forall s :: lo <= s <= hi && 0 <= s < |acc| ==> acc[s] == 0
  }

  ghost predicate IsAt(a: Arrays, m: int) {
    Fits(a) && 1 <= m <= a.net.last && IsMachine(a.net, At(a, m)) && Quiet(a.accptnum, At(a, m).lo, At(a, m).hi)
  }

  ghost predicate SameAt(a: Arrays, b: Arrays, s: int)
    requires Fits(a) && Fits(b) && 1 <= s <= a.net.last && s <= b.net.last
  {
    && a.net.tc[s] == b.net.tc[s] && a.net.t1[s] == b.net.t1[s] && a.net.t2[s] == b.net.t2[s]
    && a.firstst[s] == b.firstst[s] && a.lastst[s] == b.lastst[s] && a.finalst[s] == b.finalst[s]
       && a.accptnum[s] == b.accptnum[s]
  }

  /** Nothing has changed for the states below k. */
  ghost predicate SameBelow(a: Arrays, b: Arrays, k: int) {
    && Fits(a) && Fits(b) && 1 <= k <= a.net.last + 1 && k <= b.net.last + 1
    && forall s :: 1 <= s < k ==> SameAt(a, b, s)
  }

  lemma SameBelowTrans(a: Arrays, b: Arrays, c: Arrays, k: int, k': int)
    requires SameBelow(a, b, k) && SameBelow(b, c, k')
    ensures SameBelow(a, c, if k < k' then k else k')
  {
    forall s | 1 <= s < k && s < k' ensures SameAt(a, c, s) {
      assert SameAt(a, b, s) && SameAt(b, c, s);
    }
  }

  /** Machines below k stay what they are. */
  lemma KeptBelow(a: Arrays, b: Arrays, k: int, m: int)
    requires IsAt(a, m) && SameBelow(a, b, k) && At(a, m).hi < k
    ensures IsAt(b, m) && At(b, m) == At(a, m) && Accepts(b.net, At(b, m)) == Accepts(a.net, At(a, m))
  {
    var r := At(a, m);
    assert SameAt(a, b, m);
    forall s | r.lo <= s <= r.hi
      ensures a.net.tc[s] == b.net.tc[s] && a.net.t1[s] == b.net.t1[s] && a.net.t2[s] == b.net.t2[s]
      ensures b.accptnum[s] == 0
    {
      assert SameAt(a, b, s);
      assert a.accptnum[s] == 0;
    }
    Kept(a.net, b.net, r);
  }

  /** The last states from lo on are a machine m for the language l, and nothing has changed before lo. */
  ghost predicate Made(before: Arrays, after: Arrays, m: int, lo: int, l: Lang) {
    && IsAt(after, m) && At(after, m).lo == lo && At(after, m).hi == after.net.last
    && SameBelow(before, after, lo) && Accepts(after.net, At(after, m)) == l
  }

  lemma MadeFacts(before: Arrays, after: Arrays, m: int, lo: int, l: Lang)
    requires Made(before, after, m, lo, l)
    ensures Fits(before) && Fits(after) && 1 <= lo <= before.net.last + 1 && lo <= m <= after.net.last
    ensures lo <= after.finalst[m] <= after.net.last && after.firstst[m] == lo && after.lastst[m] == after.net.last
  {}

  /** mkstate on the arrays. */
  ghost predicate StateMade(a: Arrays, b: Arrays, sym: int) {
    && Fits(a) && Fits(b) && NewState(a.net, b.net, sym) && SameBelow(a, b, b.net.last)
    && At(b, b.net.last) == Mach(b.net.last, b.net.last, b.net.last, b.net.last) && b.accptnum[b.net.last] == 0
  }

  /** mkxtion on the arrays. */
  ghost predicate EdgeMade(a: Arrays, b: Arrays, from: int, to: int) {
    Fits(a) && Fits(b) && NewEdge(a.net, b.net, from, to) && b == a.(net := b.net)
  }

  /** What link_machines does to the bookkeeping of first. */
  ghost predicate Renamed(a: Arrays, b: Arrays, m: int, r: Mach) {
    && Fits(a) && 1 <= m <= a.net.last
    && b == a.(firstst := a.firstst[m := r.lo], lastst := a.lastst[m := r.hi], finalst := a.finalst[m := r.final])
  }

  lemma StateMachine(a: Arrays, b: Arrays, sym: int)
    requires StateMade(a, b, sym)
    ensures Made(a, b, b.net.last, b.net.last, Symbol(sym)) && b.net.last == a.net.last + 1
    ensures sym == SYM_EPSILON ==> SuperFree(b.net, b.net.last)
    ensures EndOf(b, b.net.last) == if sym == SYM_EPSILON then Open else Letter
  {
    NewMachine(a.net, b.net, sym);
  }

  /** The language of a single state. */
  ghost function Symbol(sym: int): Lang {
    if sym == SYM_EPSILON then UNIT else iset{[sym]}
  }

  lemma EdgeSameBelow(a: Arrays, b: Arrays, from: int, to: int, k: int)
    requires EdgeMade(a, b, from, to) && 1 <= k <= from
    ensures SameBelow(a, b, k)
  {
    forall s | 1 <= s < k ensures SameAt(a, b, s) {}
  }

  lemma RenamedSameBelow(a: Arrays, b: Arrays, m: int, r: Mach, k: int)
    requires Renamed(a, b, m, r) && 1 <= k <= m
    ensures SameBelow(a, b, k) && At(b, m) == Mach(m, r.final, r.lo, r.hi)
    ensures forall i :: 1 <= i <= a.net.last && i != m ==> At(b, i) == At(a, i)
  {
    forall s | 1 <= s < k ensures SameAt(a, b, s) {}
  }

  /** A state of a machine range is free or not by the macro SUPER_FREE_EPSILON. */
  lemma NeighbourKept(a: Arrays, b: Arrays, sym: int, m: int)
    requires StateMade(a, b, sym) && IsAt(a, m)
    ensures IsAt(b, m) && At(b, m) == At(a, m) && Accepts(b.net, At(b, m)) == Accepts(a.net, At(a, m))
  {
    KeptBelow(a, b, b.net.last, m);
  }

  lemma MachineFacts(a: Arrays, m: int)
    requires IsAt(a, m)
    ensures var r := At(a, m); Fits(a) && 1 <= r.lo <= m <= r.hi <= a.net.last && r.lo <= r.final <= r.hi
                               && FreeSlot(a.net, r.final)
    ensures a.finalst[m] == At(a, m).final && a.firstst[m] == At(a, m).lo && a.lastst[m] == At(a, m).hi
    ensures Tidy(a.net, At(a, m).final, At(a, m).final) && At(a, m).start == m
  {}

  // ----- final states, and how many states the operators make

  /** What a machine ends in: a free epsilon state, an epsilon state with a transition, or a symbol. */
  datatype Ending = Open | Used | Letter

  ghost function EndOf(a: Arrays, m: int): Ending {
    if SuperFree(a.net, At(a, m).final) then Open
    else if 0 <= At(a, m).final < |a.net.tc| && a.net.tc[At(a, m).final] == SYM_EPSILON then Used
    else Letter
  }

  ghost function Extent(a: Arrays, m: int): int {
    At(a, m).hi - At(a, m).lo + 1
  }

  lemma EndKept(a: Arrays, b: Arrays, k: int, m: int)
    requires IsAt(a, m) && SameBelow(a, b, k) && At(a, m).hi < k
    ensures EndOf(b, m) == EndOf(a, m) && Extent(b, m) == Extent(a, m) >= 1
  {
    assert SameAt(a, b, m) && SameAt(a, b, At(a, m).final);
  }

  lemma ExtentIs(a: Arrays, m: int)
    requires IsAt(a, m)
    ensures Extent(a, m) == At(a, m).hi - At(a, m).lo + 1 >= 1
  {}

  function PosStates(e: Ending): nat {
    if e.Open? then 0 else 1
  }

  function OptStates(e: Ending): nat {
    if e.Open? then 1 else 2
  }

  function OrStates(e1: Ending, e2: Ending): nat {
    if e1.Open? || e2.Open? then 1 else 2
  }

  function AcceptStates(e: Ending): nat {
    if e.Letter? then 1 else 0
  }

  /** num copies of a machine with size states. */
  function Copies(num: int, size: int): int {
    if num > 0 then num * size else 0
  }

  lemma CopiesStep(i: int, num: int, size: int)
    requires 1 <= i <= num && 0 <= size
    ensures Copies(i, size) == Copies(i - 1, size) + size <= Copies(num, size)
  {
    assert num * size == i * size + (num - i) * size;
    assert (num - i) * size >= 0;
  }

  lemma CopiesNone(num: int, size: int)
    ensures num <= 0 ==> Copies(num, size) == 0
    ensures 0 <= size ==> Copies(num, size) >= 0
  {}

  /** The states that mkrep makes for a machine with size states, and those of its tail. */
  function RepStates(size: int, e: Ending, lb: int, ub: int): (n: int)
    ensures size >= 0 ==> n >= 2
  {
    CopiesNone(lb - 1, size);
    1 + Copies(lb - 1, size) + TailStates(size, e, lb, ub)
  }

  function TailStates(size: int, e: Ending, lb: int, ub: int): (n: int)
    ensures size >= 0 ==> n >= 1
  {
    CopiesNone(ub - lb, size + 1);
    if ub == INFINITY then size + PosStates(e) + OptStates(Used) else 1 + Copies(ub - lb, size + 1)
  }

  /** link_machines for two neighbouring machines. */
  lemma LinkMade(a: Arrays, b: Arrays, c: Arrays, m1: int, m2: int)
    requires IsAt(a, m1) && IsAt(a, m2) && (At(a, m1).hi + 1 == At(a, m2).lo || At(a, m2).hi + 1 == At(a, m1).lo)
    requires EdgeMade(a, b, At(a, m1).final, m2) && Renamed(b, c, m1, Linked(At(a, m1), At(a, m2)))
    ensures IsAt(c, m1) && At(c, m1) == Linked(At(a, m1), At(a, m2)) && SameBelow(a, c, At(c, m1).lo)
    ensures Accepts(c.net, At(c, m1)) == Cat(Accepts(a.net, At(a, m1)), Accepts(a.net, At(a, m2)))
    ensures EndOf(c, m1) == EndOf(a, m2)
  {
    var r1, r2 := At(a, m1), At(a, m2);
    Link(a.net, b.net, r1, r2);
    var lo := Linked(r1, r2).lo;
    MachineFacts(a, m1);
    MachineFacts(a, m2);
    EdgeSameBelow(a, b, r1.final, m2, lo);
    RenamedSameBelow(b, c, m1, Linked(r1, r2), lo);
    SameBelowTrans(a, b, c, lo, lo);
  }

  /** No accepting numbers appear. */
  ghost predicate AccKept(a: Arrays, b: Arrays) {
    && Fits(a) && Fits(b) && a.net.last <= b.net.last
    && forall s :: 1 <= s <= b.net.last ==> b.accptnum[s] == if s <= a.net.last then a.accptnum[s] else 0
  }

  lemma AccKeptState(a: Arrays, b: Arrays, sym: int)
    requires StateMade(a, b, sym)
    ensures AccKept(a, b)
  {
    forall s | 1 <= s <= a.net.last ensures b.accptnum[s] == a.accptnum[s] { assert SameAt(a, b, s); }
  }

  lemma AccKeptTrans(a: Arrays, b: Arrays, c: Arrays)
    requires AccKept(a, b) && AccKept(b, c)
    ensures AccKept(a, c)
  {}

  lemma QuietKept(a: Arrays, b: Arrays, lo: int)
    requires AccKept(a, b) && Quiet(a.accptnum, lo, a.net.last) && 1 <= lo
    ensures Quiet(b.accptnum, lo, b.net.last)
  {}

  /** The states of a and a fresh epsilon state. */
  lemma EpsilonAdded(a: Arrays, b: Arrays, m: int)
    requires StateMade(a, b, SYM_EPSILON) && IsAt(a, m)
    ensures var e := b.net.last;
            && e == a.net.last + 1 && IsAt(b, e) && At(b, e) == Mach(e, e, e, e) && SuperFree(b.net, e) && AccKept(a, b)
            && IsAt(b, m) && At(b, m) == At(a, m) && Accepts(b.net, At(b, m)) == Accepts(a.net, At(a, m))
            && SameBelow(a, b, e) && Accepts(b.net, At(b, e)) == UNIT
  {
    StateMachine(a, b, SYM_EPSILON);
    NeighbourKept(a, b, SYM_EPSILON, m);
    AccKeptState(a, b, SYM_EPSILON);
  }

  /** mkposcl, closing the loop at a free final state. */
  lemma LoopBackMade(a: Arrays, b: Arrays, m: int)
    requires IsAt(a, m) && At(a, m).hi == a.net.last && SuperFree(a.net, At(a, m).final)
             && EdgeMade(a, b, At(a, m).final, m)
    ensures Made(a, b, m, At(a, m).lo, Plus(Accepts(a.net, At(a, m)))) && EndOf(b, m) == Used
  {
    MachineFacts(a, m);
    LoopBack(a.net, b.net, At(a, m));
    EdgeSameBelow(a, b, At(a, m).final, m, At(a, m).lo);
  }

  /** mkposcl with a new state. */
  lemma LoopEpsMade(a: Arrays, b: Arrays, c: Arrays, mid: Arrays, d: Arrays, m: int)
    requires IsAt(a, m) && At(a, m).hi == a.net.last && StateMade(a, b, SYM_EPSILON)
    requires var e := b.net.last; EdgeMade(b, c, e, m) && EdgeMade(c, mid, At(a, m).final, e)
                                  && Renamed(mid, d, m, Linked(At(c, m), At(c, e)))
    ensures Made(a, d, m, At(a, m).lo, Plus(Accepts(a.net, At(a, m)))) && EndOf(d, m) == Used
  {
    var e, r, lo := b.net.last, At(a, m), At(a, m).lo;
    MachineFacts(a, m);
    EpsilonAdded(a, b, m);
    LoopEps(b.net, c.net, mid.net, r, e);
    EdgeSameBelow(b, c, e, m, lo);
    EdgeSameBelow(c, mid, r.final, e, lo);
    RenamedSameBelow(mid, d, m, Linked(At(c, m), At(c, e)), lo);
    SameBelowTrans(a, b, c, e, lo);
    SameBelowTrans(a, c, mid, lo, lo);
    SameBelowTrans(a, mid, d, lo, lo);
    QuietKept(a, b, lo);
  }

  /** mkopt, second half. */
  lemma SkipMade(a: Arrays, b: Arrays, mid: Arrays, c: Arrays, d: Arrays, m: int)
    requires IsAt(a, m) && At(a, m).hi == a.net.last && SuperFree(a.net, At(a, m).final) && StateMade(a, b, SYM_EPSILON)
    requires var e := b.net.last; EdgeMade(b, mid, e, m) && Renamed(mid, c, e, Linked(At(b, e), At(b, m)))
                                  && EdgeMade(c, d, e, At(a, m).final)
    ensures Made(a, d, b.net.last, At(a, m).lo, UNIT + Accepts(a.net, At(a, m))) && EndOf(d, b.net.last) == Open
  {
    var e, r, lo := b.net.last, At(a, m), At(a, m).lo;
    MachineFacts(a, m);
    EpsilonAdded(a, b, m);
    assert SuperFree(b.net, r.final) by { assert SameAt(a, b, r.final); }
    Skip(b.net, mid.net, d.net, r, e);
    EdgeSameBelow(b, mid, e, m, lo);
    RenamedSameBelow(mid, c, e, Linked(At(b, e), At(b, m)), lo);
    EdgeSameBelow(c, d, e, r.final, lo);
    SameBelowTrans(a, b, mid, e, lo);
    SameBelowTrans(a, mid, c, lo, lo);
    SameBelowTrans(a, c, d, lo, lo);
    QuietKept(a, b, lo);
  }

  /** mkopt, first half: a fresh epsilon state behind m changes nothing but the final state. */
  lemma EndMade(a: Arrays, b: Arrays, mid: Arrays, c: Arrays, m: int)
    requires IsAt(a, m) && At(a, m).hi == a.net.last && StateMade(a, b, SYM_EPSILON)
    requires var e := b.net.last; EdgeMade(b, mid, At(b, m).final, e) && Renamed(mid, c, m, Linked(At(b, m), At(b, e)))
    ensures Made(a, c, m, At(a, m).lo, Accepts(a.net, At(a, m))) && SuperFree(c.net, At(c, m).final)
  {
    var lo := At(a, m).lo;
    MachineFacts(a, m);
    EpsilonAdded(a, b, m);
    LinkMade(b, mid, c, m, b.net.last);
    SameBelowTrans(a, b, c, b.net.last, lo);
    CatUnit(Accepts(a.net, At(a, m)));
    QuietKept(a, b, lo);
  }

  // ----- mkor

  /** The state of mkor after the fork. */
  ghost predicate ForkMade(a: Arrays, d: Arrays, e: int, m1: int, m2: int) {
    && IsAt(a, m1) && IsAt(a, m2) && At(a, m1).hi + 1 == At(a, m2).lo && At(a, m2).hi == a.net.last
    && e == a.net.last + 1 && SameBelow(a, d, At(a, m1).lo) && AccKept(a, d) && d.net.last == e
    && Forked(a.net, d.net, e, At(a, m1), At(a, m2))
    && At(d, e) == Mach(e, At(a, m1).final, At(a, m1).lo, e) && At(d, m2) == At(a, m2)
  }

  lemma ForkFacts(a: Arrays, d: Arrays, e: int, m1: int, m2: int)
    requires ForkMade(a, d, e, m1, m2)
    ensures Fits(d) && d.net.last == e && 1 <= m2 < e && 1 <= e
    ensures d.finalst[e] == At(a, m1).final && d.finalst[m2] == At(a, m2).final
    ensures 1 <= At(a, m1).lo <= At(a, m1).final < e && 1 <= At(a, m2).final < e && At(a, m1).final != At(a, m2).final
    ensures FreeSlot(d.net, At(a, m1).final) && FreeSlot(d.net, At(a, m2).final)
    ensures At(d, e) == Mach(e, At(a, m1).final, At(a, m1).lo, e)
  {
    MachineFacts(a, m1);
    MachineFacts(a, m2);
    ForkFree(a.net, d.net, e, At(a, m1), At(a, m2));
  }

  ghost predicate EndsAs(d: Arrays, f: int, e: Ending) {
    && 0 <= f < |d.net.tc| && f < |d.net.t1| && f < |d.accptnum| && d.accptnum[f] == 0
    && (d.net.tc[f] == SYM_EPSILON && d.net.t1[f] == 0 <==> e == Open)
  }

  /** The fork leaves the final states as they are. */
  lemma ForkEnds(a: Arrays, d: Arrays, e: int, m1: int, m2: int)
    requires ForkMade(a, d, e, m1, m2)
    ensures EndsAs(d, At(a, m1).final, EndOf(a, m1)) && EndsAs(d, At(a, m2).final, EndOf(a, m2))
  {
    MachineFacts(a, m1);
    MachineFacts(a, m2);
  }

  lemma ForkFree(n: Net, n2: Net, e: int, m1: Mach, m2: Mach)
    requires Forked(n, n2, e, m1, m2)
    ensures FreeSlot(n2, m1.final) && FreeSlot(n2, m2.final)
  {}

  lemma ForkDone(a: Arrays, b: Arrays, mid: Arrays, c: Arrays, d: Arrays, m1: int, m2: int)
    requires IsAt(a, m1) && IsAt(a, m2) && At(a, m1).hi + 1 == At(a, m2).lo && At(a, m2).hi == a.net.last
    requires StateMade(a, b, SYM_EPSILON)
    requires var e := b.net.last; EdgeMade(b, mid, e, m1) && Renamed(mid, c, e, Linked(At(b, e), At(b, m1)))
                                  && EdgeMade(c, d, e, m2)
    ensures ForkMade(a, d, b.net.last, m1, m2)
  {
    var e, r1, r2, lo := b.net.last, At(a, m1), At(a, m2), At(a, m1).lo;
    MachineFacts(a, m1);
    MachineFacts(a, m2);
    EpsilonAdded(a, b, m1);
    EpsilonAdded(a, b, m2);
    Fork(b.net, mid.net, d.net, e, r1, r2);
    EdgeSameBelow(b, mid, e, m1, lo);
    RenamedSameBelow(mid, c, e, Linked(At(b, e), At(b, m1)), lo);
    EdgeSameBelow(c, d, e, m2, lo);
    SameBelowTrans(a, b, mid, e, lo);
    SameBelowTrans(a, mid, c, lo, lo);
    SameBelowTrans(a, c, d, lo, lo);
    ForkLater(a, b, d, e, m1, m2);
  }

  lemma ForkLater(a: Arrays, b: Arrays, d: Arrays, e: int, m1: int, m2: int)
    requires IsAt(a, m1) && IsAt(a, m2) && SameBelow(a, b, e) && At(a, m1).hi < e && At(a, m2).hi < e
    requires Forked(b.net, d.net, e, At(a, m1), At(a, m2))
    ensures Forked(a.net, d.net, e, At(a, m1), At(a, m2))
  {
    KeptBelow(a, b, e, m1);
    KeptBelow(a, b, e, m2);
    forall s | 1 <= s < e
      ensures a.net.tc[s] == b.net.tc[s] && a.net.t1[s] == b.net.t1[s] && a.net.t2[s] == b.net.t2[s]
    {
      assert SameAt(a, b, s);
    }
  }

  /** mkor with a free final state f as the end of both; g is the other final state. */
  lemma OrIntoMade(a: Arrays, d: Arrays, z: Arrays, z': Arrays, e: int, m1: int, m2: int, f: int, g: int)
    requires ForkMade(a, d, e, m1, m2) && SuperFree(d.net, f) && EdgeMade(d, z, g, f)
    requires (f == At(a, m1).final && g == At(a, m2).final) || (f == At(a, m2).final && g == At(a, m1).final)
    requires z' == z.(finalst := z.finalst[e := f])
    ensures Made(a, z', e, At(a, m1).lo, Accepts(a.net, At(a, m1)) + Accepts(a.net, At(a, m2)))
    ensures EndOf(z', e) == Open
  {
    var lo := At(a, m1).lo;
    ForkFacts(a, d, e, m1, m2);
    MachineFacts(a, m1);
    MachineFacts(a, m2);
    OrInto(a.net, d.net, z.net, e, At(a, m1), At(a, m2), f, g);
    EdgeSameBelow(d, z, g, f, lo);
    SameBelowTrans(a, d, z, lo, lo);
    assert SameBelow(z, z', lo) by { forall s | 1 <= s < lo ensures SameAt(z, z', s) {} }
    SameBelowTrans(a, z, z', lo, lo);
    QuietKept(a, d, lo);
  }

  /** mkor with a new final state. */
  lemma OrEpsMade(a: Arrays, d: Arrays, b: Arrays, mid: Arrays, c: Arrays, z: Arrays, e: int, m1: int, m2: int)
    requires ForkMade(a, d, e, m1, m2) && StateMade(d, b, SYM_EPSILON) && b.net.last == e + 1
    requires EdgeMade(b, mid, At(a, m1).final, e + 1) && Renamed(mid, c, e, Linked(At(b, e), At(b, e + 1)))
    requires EdgeMade(c, z, At(a, m2).final, e + 1)
    ensures Made(a, z, e, At(a, m1).lo, Accepts(a.net, At(a, m1)) + Accepts(a.net, At(a, m2)))
    ensures EndOf(z, e) == Open
  {
    OrEpsWhole(a, d, b, mid, c, z, e, m1, m2);
    OrEpsBelow(a, d, b, mid, c, z, e, m1, m2);
    hide Accepts, SameBelow;
    MachineFacts(a, m1);
    assert SameAt(d, b, e);
    QuietKept(a, b, At(a, m1).lo);
  }

  lemma OrEpsWhole(a: Arrays, d: Arrays, b: Arrays, mid: Arrays, c: Arrays, z: Arrays, e: int, m1: int, m2: int)
    requires ForkMade(a, d, e, m1, m2) && StateMade(d, b, SYM_EPSILON) && b.net.last == e + 1
    requires EdgeMade(b, mid, At(a, m1).final, e + 1) && Renamed(mid, c, e, Linked(At(b, e), At(b, e + 1)))
    requires EdgeMade(c, z, At(a, m2).final, e + 1)
    ensures var m := Mach(e, e + 1, At(a, m1).lo, e + 1);
            IsMachine(z.net, m) && Accepts(z.net, m) == Accepts(a.net, At(a, m1)) + Accepts(a.net, At(a, m2))
  {
    hide SameBelow, AccKept, Accepts, IsMachine;
    ForkFacts(a, d, e, m1, m2);
    StateMachine(d, b, SYM_EPSILON);
    ForkStill(a.net, d.net, b.net, e, At(a, m1), At(a, m2));
    OrEps(a.net, b.net, mid.net, z.net, e, e + 1, At(a, m1), At(a, m2));
  }

  lemma OrEpsBelow(a: Arrays, d: Arrays, b: Arrays, mid: Arrays, c: Arrays, z: Arrays, e: int, m1: int, m2: int)
    requires ForkMade(a, d, e, m1, m2) && StateMade(d, b, SYM_EPSILON) && b.net.last == e + 1
    requires EdgeMade(b, mid, At(a, m1).final, e + 1) && Renamed(mid, c, e, Linked(At(b, e), At(b, e + 1)))
    requires EdgeMade(c, z, At(a, m2).final, e + 1)
    ensures SameBelow(a, z, At(a, m1).lo) && AccKept(a, b)
  {
    hide Accepts, IsMachine, Forked;
    var lo, r1, r2 := At(a, m1).lo, At(a, m1), At(a, m2);
    ForkFacts(a, d, e, m1, m2);
    MachineFacts(a, m1);
    MachineFacts(a, m2);
    AccKeptState(d, b, SYM_EPSILON);
    assert SameAt(d, b, e);
    EdgeSameBelow(b, mid, r1.final, e + 1, lo);
    RenamedSameBelow(mid, c, e, Linked(At(b, e), At(b, e + 1)), lo);
    EdgeSameBelow(c, z, r2.final, e + 1, lo);
    SameBelowTrans(a, d, b, lo, e + 1);
    SameBelowTrans(a, b, mid, lo, lo);
    SameBelowTrans(a, mid, c, lo, lo);
    SameBelowTrans(a, c, z, lo, lo);
    AccKeptTrans(a, d, b);
  }

  lemma ForkStill(n: Net, n2: Net, n3: Net, e: int, m1: Mach, m2: Mach)
    requires Forked(n, n2, e, m1, m2) && NewState(n2, n3, SYM_EPSILON) && n2.last == e
    ensures Forked(n, n3, e, m1, m2)
  {
    Frame(n2, n3, m1.lo, e, e, m1.final);
    Frame(n2, n3, m1.lo, e, e, m2.final);
    RegionKept(n2, n3, m1.lo, e, m1.final, m2.final, e);
  }

  lemma RegionKept(n: Net, n': Net, lo: int, hi: int, f: int, g: int, s: int)
    requires Region(n, lo, hi, f, g) && Unled(n, lo, hi, s) && AgreeOn(n, n', lo, hi)
    ensures Region(n', lo, hi, f, g) && Unled(n', lo, hi, s)
  {
    forall a | lo <= a <= hi ensures Solid(n', a) <==> Solid(n, a) {}
    assert Lone(n', lo, hi) by {
      forall a, b | lo <= a <= hi && lo <= b <= hi && Solid(n', a) && Solid(n', b) && n'.t1[a] == n'.t1[b]
          && Solid(n', n'.t1[a])
        ensures a == b
      {
        assert Solid(n, a) && Solid(n, b) && n.t1[a] == n.t1[b] && Solid(n, n.t1[a]);
      }
    }
  }

  lemma MadeSelf(a: Arrays, m: int)
    requires IsAt(a, m) && At(a, m).hi == a.net.last
    ensures Made(a, a, m, At(a, m).lo, Accepts(a.net, At(a, m)))
  {}

  lemma MadeMachine(before: Arrays, after: Arrays, m: int, lo: int, l: Lang)
    requires Made(before, after, m, lo, l)
    ensures IsAt(after, m) && At(after, m).lo == lo && At(after, m).hi == after.net.last
            && Accepts(after.net, At(after, m)) == l
    ensures SameBelow(before, after, lo)
  {}

  lemma MadeAfter(a: Arrays, b: Arrays, c: Arrays, m: int, m': int, lo: int, l: Lang, l': Lang)
    requires Made(a, b, m, lo, l) && Made(b, c, m', lo, l')
    ensures Made(a, c, m', lo, l')
  {
    SameBelowTrans(a, b, c, lo, lo);
  }

  /** The second slot of the epsilon state in front is still free. */
  lemma OptSlot(a: Arrays, b: Arrays, mid: Arrays, c: Arrays, m: int)
    requires IsAt(a, m) && StateMade(a, b, SYM_EPSILON)
    requires var e := b.net.last; EdgeMade(b, mid, e, m) && Renamed(mid, c, e, Linked(At(b, e), At(b, m)))
    ensures var e := b.net.last; FreeSlot(c.net, e) && Fits(c) && c.net.last == e && c.finalst[e] == At(a, m).final
  {
    EpsilonAdded(a, b, m);
  }

  lemma HeadSlot(a: Arrays, b: Arrays, mid: Arrays, c: Arrays, m: int)
    requires IsAt(a, m) && StateMade(a, b, SYM_EPSILON)
    requires var e := b.net.last; EdgeMade(b, mid, e, m) && Renamed(mid, c, e, Linked(At(b, e), At(b, m)))
    ensures FreeSlot(c.net, b.net.last)
  {
    OptSlot(a, b, mid, c, m);
  }

  lemma JoinSlots(a: Arrays, d: Arrays, b: Arrays, e: int, m1: int, m2: int)
    requires ForkMade(a, d, e, m1, m2) && StateMade(d, b, SYM_EPSILON)
    ensures Fits(b) && b.net.last == e + 1 && FreeSlot(b.net, At(a, m1).final) && FreeSlot(b.net, At(a, m2).final)
    ensures At(b, e) == At(d, e) && b.finalst[e] == At(a, m1).final && At(b, e + 1) == Mach(e + 1, e + 1, e + 1, e + 1)
    ensures b.finalst[m2] == At(a, m2).final && 1 <= m2 < e && 1 <= At(a, m1).final < e
  {
    ForkFacts(a, d, e, m1, m2);
    StateMachine(d, b, SYM_EPSILON);
    assert SameAt(d, b, e) && SameAt(d, b, m2) && SameAt(d, b, At(a, m1).final) && SameAt(d, b, At(a, m2).final);
  }

  lemma JoinSlotLeft(a: Arrays, b: Arrays, mid: Arrays, c: Arrays, e: int, m1: int, m2: int)
    requires Fits(b) && FreeSlot(b.net, At(a, m2).final) && At(a, m1).final != At(a, m2).final
             && 1 <= m2 < e && m2 <= b.net.last
    requires EdgeMade(b, mid, At(a, m1).final, e + 1) && Renamed(mid, c, e, Linked(At(b, e), At(b, e + 1)))
    requires b.finalst[m2] == At(a, m2).final && At(b, e + 1) == Mach(e + 1, e + 1, e + 1, e + 1) && e < b.net.last
    ensures Fits(c) && c.net.last == b.net.last && FreeSlot(c.net, At(a, m2).final)
    ensures c.finalst[m2] == At(a, m2).final && c.finalst[e] == e + 1
  {}

  // ----- copies

  /** The states lo..k-1 of a have copies, shifted by off, behind the states of a. */
  ghost predicate Copying(a: Arrays, b: Arrays, lo: int, k: int, off: int) {
    && Fits(a) && Fits(b) && 1 <= lo <= k && b.net.last == k - 1 + off && a.net.last == lo - 1 + off
    && SameBelow(a, b, a.net.last + 1) && AccKept(a, b)
    && forall s :: lo <= s < k ==> CopiedAt(a.net, b.net, s, off)
  }

  /** A new state with symbol sym and transitions x1 and x2. */
  ghost predicate Filled(b: Arrays, z: Arrays, sym: int, x1: int, x2: int) {
    && Fits(z) && Fits(b) && z.net.last == b.net.last + 1 && SameBelow(b, z, b.net.last + 1)
    && z.net.tc[z.net.last] == sym && z.net.t1[z.net.last] == x1 && z.net.t2[z.net.last] == x2
       && z.accptnum[z.net.last] == 0
  }

  lemma FilledNone(b: Arrays, z: Arrays, sym: int)
    requires StateMade(b, z, sym)
    ensures Filled(b, z, sym, 0, 0) && FreeSlot(z.net, z.net.last) && z.net.last == b.net.last + 1
            && z.finalst[z.net.last] == z.net.last
  {}

  lemma FilledEdge(b: Arrays, z: Arrays, z': Arrays, sym: int, x1: int, x2: int, to: int)
    requires Filled(b, z, sym, x1, x2) && EdgeMade(z, z', z.net.last, to)
    ensures Filled(b, z', sym, if x1 == 0 then to else x1, if x1 == 0 then x2 else to)
    ensures sym == SYM_EPSILON && x2 == 0 && x1 == 0 ==> FreeSlot(z'.net, z'.net.last)
  {
    EdgeSameBelow(z, z', z.net.last, to, z.net.last);
    SameBelowTrans(b, z, z', b.net.last + 1, z.net.last);
  }

  lemma CopyStep(a: Arrays, b: Arrays, z: Arrays, lo: int, i: int, off: int)
    requires Copying(a, b, lo, i, off) && lo <= i <= a.net.last
    requires Filled(b, z, a.net.tc[i], if a.net.t1[i] == 0 then 0 else a.net.t1[i] + off, if a.net.t2[i] == 0
             then 0 else a.net.t2[i] + off)
    ensures Copying(a, z, lo, i + 1, off)
  {
    SameBelowTrans(a, b, z, a.net.last + 1, b.net.last + 1);
    forall s | 1 <= s <= b.net.last ensures SameAt(b, z, s) {}
    forall s | lo <= s < i + 1 ensures CopiedAt(a.net, z.net, s, off) {
      if s < i {
        assert CopiedAt(a.net, b.net, s, off);
        assert SameAt(b, z, s + off);
      }
    }
    forall s | 1 <= s <= z.net.last ensures z.accptnum[s] == if s <= a.net.last then a.accptnum[s] else 0 {
      if s <= b.net.last { assert SameAt(b, z, s); }
    }
  }

  /** What a state that is being copied looks like. */
  lemma CopySource(a: Arrays, b: Arrays, m: int, i: int, off: int)
    requires IsAt(a, m) && Copying(a, b, At(a, m).lo, i, off) && i <= At(a, m).hi
    ensures Fits(b) && 1 <= At(a, m).lo <= i <= b.net.last && i <= a.net.last < |a.net.tc| && i < |a.net.t1|
            && i < |a.net.t2|
    ensures b.net.tc[i] == a.net.tc[i] && b.net.t1[i] == a.net.t1[i] && b.net.t2[i] == a.net.t2[i] && b.accptnum[i] == 0
    ensures a.net.t2[i] != 0 ==> a.net.tc[i] == SYM_EPSILON && a.net.t1[i] != 0
    ensures (a.net.t1[i] != 0 ==> a.net.t1[i] + off != 0) && b.net.last == i - 1 + off
  {
    assert SameAt(a, b, i);
  }

  lemma CopyDone(a: Arrays, b: Arrays, c: Arrays, m: int, off: int)
    requires IsAt(a, m) && Copying(a, b, At(a, m).lo, At(a, m).hi + 1, off)
    requires Renamed(b, c, m + off, Shifted(At(a, m), off))
    ensures Made(a, c, m + off, a.net.last + 1, Accepts(a.net, At(a, m))) && EndOf(c, m + off) == EndOf(a, m)
  {
    var r := At(a, m);
    assert CopiedAt(a.net, b.net, r.final, off);
    Copy(a.net, b.net, r, off);
    RenamedSameBelow(b, c, m + off, Shifted(r, off), a.net.last + 1);
    SameBelowTrans(a, b, c, a.net.last + 1, a.net.last + 1);
  }

  // ----- repetition

  /** What mkrep matches: lb to ub times l, or at least lb times for INFINITY. */
  ghost function Repeated(l: Lang, lb: int, ub: int): Lang
    requires 1 <= lb
  {
    if ub == INFINITY then AtLeast(l, lb) else Times(l, lb, if ub < lb then lb else ub)
  }

  /** What the tail that mkrep makes matches. */
  ghost function TailLang(l: Lang, lb: int, ub: int): Lang {
    if ub == INFINITY then Star(l) else Times(l, 0, if ub > lb then ub - lb else 0)
  }

  lemma RepeatedLang(l: Lang, lb: int, ub: int)
    requires 1 <= lb
    ensures Cat(l, Cat(Pow(l, lb - 1), TailLang(l, lb, ub))) == Repeated(l, lb, ub)
  {
    hide Cat, Pow, Star, Times, AtLeast;
    var tail := TailLang(l, lb, ub);
    CatAssoc(l, Pow(l, lb - 1), tail);
    PowOne(l);
    PowAdd(l, 1, lb - 1);
    if ub == INFINITY {
      PowStar(l, lb);
    } else {
      PowTimes(l, lb, if ub < lb then 0 else ub - lb);
    }
  }

  // ----- rules

  /** A complete rule: machine m with the accepting number acc on its final state, an epsilon state, and nowhere
      else. */
  ghost predicate RuleMade(before: Arrays, after: Arrays, m: int, lo: int, acc: int, l: Lang) {
    && Fits(after) && 1 <= m <= after.net.last && IsMachine(after.net, At(after, m))
    && At(after, m).lo == lo && At(after, m).hi == after.net.last && SameBelow(before, after, lo)
    && Accepts(after.net, At(after, m)) == l && after.net.tc[At(after, m).final] == SYM_EPSILON
    && forall s :: lo <= s <= after.net.last ==> after.accptnum[s] == if s == At(after, m).final then acc else 0
  }

  lemma RuleAccepts(a: Arrays, b: Arrays, c: Arrays, m: int, acc: int, f: int)
    requires IsAt(a, m) && Made(a, b, m, At(a, m).lo, Accepts(a.net, At(a, m))) && f == At(b, m).final
             && b.net.tc[f] == SYM_EPSILON
    requires c == b.(accptnum := b.accptnum[f := acc])
    ensures RuleMade(a, c, m, At(a, m).lo, acc, Accepts(a.net, At(a, m)))
  {
    var lo := At(a, m).lo;
    forall s | 1 <= s < lo ensures SameAt(a, c, s) { assert SameAt(a, b, s); }
  }

  lemma AcceptLater(a: Arrays, b: Arrays, m: int, acc: int)
    requires IsAt(a, m) && StateMade(a, b, SYM_EPSILON)
    ensures var c := b.(accptnum := b.accptnum[b.net.last := acc]);
            At(c, m) == At(b, m) && At(c, b.net.last) == At(b, b.net.last) && FreeSlot(c.net, At(c, m).final)
  {
    EpsilonAdded(a, b, m);
  }

  // ----- mkbranch

  /** e leads without a symbol to both first and second; all that was there before is as it was. */
  ghost predicate Branched(a: Arrays, d: Arrays, e: int, first: int, second: int) {
    && Fits(a) && Fits(d) && e == d.net.last == a.net.last + 1 && SameBelow(a, d, e) && d.accptnum[e] == 0
    && d.net.tc[e] == SYM_EPSILON && d.net.t1[e] == first && d.net.t2[e] == second
    && Words(d.net, e, e) == UNIT
    && (forall s, t :: 1 <= s <= a.net.last ==> Words(d.net, s, t) == Words(a.net, s, t))
    && (forall t :: 1 <= t <= a.net.last ==> Words(d.net, e, t) == Words(a.net, first, t) + Words(a.net, second, t))
  }

  lemma BranchStart(a: Arrays, b: Arrays)
    requires StateMade(a, b, SYM_EPSILON)
    ensures FreeSlot(b.net, b.net.last) && b.net.last == a.net.last + 1 && Fits(b)
    ensures b.net.tc[b.net.last] == SYM_EPSILON && b.net.t1[b.net.last] == b.net.t2[b.net.last] == 0
  {}

  lemma BranchSlot(b: Arrays, c: Arrays, e: int, first: int)
    requires Fits(b) && EdgeMade(b, c, e, first) && 1 <= e <= b.net.last && b.net.tc[e] == SYM_EPSILON
             && b.net.t1[e] == b.net.t2[e] == 0
    ensures FreeSlot(c.net, e)
  {}

  lemma BranchDone(a: Arrays, b: Arrays, c: Arrays, d: Arrays, e: int, first: int, second: int)
    requires StateMade(a, b, SYM_EPSILON) && e == b.net.last && EdgeMade(b, c, e, first) && EdgeMade(c, d, e, second)
    requires Closed(a.net, 1, a.net.last) && 1 <= first <= a.net.last && 1 <= second <= a.net.last
    ensures Branched(a, d, e, first, second)
  {
    EdgeSameBelow(b, c, e, first, e);
    EdgeSameBelow(c, d, e, second, e);
    SameBelowTrans(a, b, c, e, e);
    SameBelowTrans(a, c, d, e, e);
    forall s | 1 <= s <= a.net.last
      ensures a.net.tc[s] == b.net.tc[s] && a.net.t1[s] == b.net.t1[s] && a.net.t2[s] == b.net.t2[s]
    {
      assert SameAt(a, b, s);
    }
    BranchWords(a.net, b.net, c.net, d.net, e, first, second);
  }

  lemma BranchWords(a: Net, b: Net, c: Net, d: Net, e: int, first: int, second: int)
    requires Closed(a, 1, a.last) && NewState(a, b, SYM_EPSILON) && e == b.last
    requires NewEdge(b, c, e, first) && NewEdge(c, d, e, second) && 1 <= first <= a.last && 1 <= second <= a.last
    ensures Words(d, e, e) == UNIT
    ensures forall s, t :: 1 <= s <= a.last ==> Words(d, s, t) == Words(a, s, t)
    ensures forall t :: 1 <= t <= a.last ==> Words(d, e, t) == Words(a, first, t) + Words(a, second, t)
  {
    NewEdgeExtends(b, c, e, first);
    NewEdgeExtends(c, d, e, second);
    assert Closed(b, 1, a.last) && Closed(c, 1, a.last) && AgreeOn(a, b, 1, a.last) && AgreeOn(a, c, 1, a.last)
        && AgreeOn(a, d, 1, a.last);
    forall s, t | 1 <= s <= a.last
      ensures Words(b, s, t) == Words(a, s, t) && Words(c, s, t) == Words(a, s, t) && Words(d, s, t) == Words(a, s, t)
    {
      Frame(a, b, 1, a.last, s, t);
      Frame(a, c, 1, a.last, s, t);
      Frame(a, d, 1, a.last, s, t);
    }
    Isolated(b, e, e);
    Confined(b, 1, a.last, first, e);
    Confined(c, 1, a.last, second, e);
    assert Words(b, e, e) == UNIT;
    forall t | 1 <= t <= a.last ensures Words(b, e, t) == iset{} { Isolated(b, e, t); }
    hide Words, Cat, Star;
    CatEmpty(UNIT);
    NoMore(UNIT, iset{});
    OneWay(b, c, e, first, e, e);
    OneWay(c, d, e, second, e, e);
    forall t | 1 <= t <= a.last ensures Words(d, e, t) == Words(a, first, t) + Words(a, second, t) {
      OneWay(b, c, e, first, e, t);
      CatUnit(Words(a, first, t));
      NoMore(Words(a, first, t), iset{});
      OneWay(c, d, e, second, e, t);
      CatUnit(Words(a, second, t));
    }
  }

  // ----- characters

  ghost predicate IsLabel(sym: int, lastccl: int, csize: int) {
    sym == SYM_EPSILON || -lastccl <= sym < csize
  }

  /** Every symbol used as a label has a list of its own. */
  ghost predicate CharsApart(tc: seq<int>, last: int, lastccl: int, bck: seq<int>, csize: int) {
    && 0 <= last < |tc| && 0 < csize
    && forall s :: 1 <= s <= last ==>
         IsLabel(tc[s], lastccl, csize) && (0 <= tc[s] < csize ==> Whole(bck, csize, [Ecs.MapNul(tc[s], csize)]))
  }

  lemma CharsRefined(tc: seq<int>, last: int, lastccl: int, before: seq<int>, after: seq<int>, csize: int, c: seq<int>)
    requires CharsApart(tc, last, lastccl, before, csize) && Ecs.RefinedBy(before, after, csize, c)
    ensures CharsApart(tc, last, lastccl, after, csize)
  {
    hide Whole, Ecs.RefinedBy;
    forall s | 1 <= s <= last && 0 <= tc[s] < csize ensures Whole(after, csize, [Ecs.MapNul(tc[s], csize)]) {
      WholeRefined(before, after, csize, c, [Ecs.MapNul(tc[s], csize)]);
    }
  }

  /** What a new state with this label does to the partition: a character is taken out of its list, if it is not
      alone there already. */
  ghost predicate SplitOff(before: seq<int>, after: seq<int>, sym: int, csize: int) {
    if 0 <= sym < csize then
      && Ecs.RefinedBy(before, after, csize, [Ecs.MapNul(sym, csize)])
      && (Whole(before, csize, [Ecs.MapNul(sym, csize)]) ==> after == before)
    else
      after == before
  }

  lemma NotSplitOff(before: seq<int>, after: seq<int>, sym: int, csize: int)
    requires SplitOff(before, after, sym, csize)
    requires 0 <= sym < csize ==> Whole(before, csize, [Ecs.MapNul(sym, csize)])
    ensures after == before
  {}

  /** A character with a list of its own has no links. */
  lemma NoLinks(fwd: seq<int>, bck: seq<int>, n: nat, x: int)
    requires Ecs.WellLinked(fwd, bck, n) && 1 <= x <= n && Whole(bck, n, [x])
    ensures fwd[x] == 0 && bck[x] == 0
  {
    assert bck[x] != 0 ==> Ecs.Same(bck, x, bck[x]);
    assert fwd[x] != 0 ==> Ecs.Same(bck, fwd[x], x);
  }

  lemma CharsNew(tc: seq<int>, last: int, tc': seq<int>, lastccl: int, bck: seq<int>, csize: int)
    requires CharsApart(tc, last, lastccl, bck, csize)
    requires last + 1 < |tc'| && (forall s :: 1 <= s <= last ==> tc'[s] == tc[s])
    requires var sym := tc'[last + 1]; IsLabel(sym, lastccl, csize)
                                       && (0 <= sym < csize ==> Whole(bck, csize, [Ecs.MapNul(sym, csize)]))
    ensures CharsApart(tc', last + 1, lastccl, bck, csize)
  {}

  // ----- the builder

  ghost predicate Longer(a: seq<int>, b: seq<int>) {
    |a| <= |b| && forall i :: 0 <= i < |a| ==> b[i] == a[i]
  }

  function Reallocate(a: seq<int>, size: nat): (r: seq<int>)
    requires |a| <= size
    ensures |r| == size && Longer(a, r)
  {
    a + seq(size - |a|, _ => 0)
  }

  /** Entry k of the enlarged arrays b is set up as mkstate does it. */
  ghost function WithState(b: Arrays, k: int, sym: int): Arrays
    requires 0 <= k < |b.net.tc| && k < |b.net.t1| && k < |b.net.t2|
    requires k < |b.firstst| && k < |b.lastst| && k < |b.finalst| && k < |b.accptnum|
  {
    Arrays(Net(k, b.net.tc[k := sym], b.net.t1[k := NO_TRANSITION], b.net.t2[k := NO_TRANSITION]),
           b.firstst[k := k], b.lastst[k := k], b.finalst[k := k], b.accptnum[k := 0])
  }

  ghost predicate Enlarged(a: Arrays, b: Arrays) {
    && Longer(a.net.tc, b.net.tc) && Longer(a.net.t1, b.net.t1) && Longer(a.net.t2, b.net.t2)
    && Longer(a.firstst, b.firstst) && Longer(a.lastst, b.lastst) && Longer(a.finalst, b.finalst)
       && Longer(a.accptnum, b.accptnum)
  }

  lemma StateAppended(a: Arrays, b: Arrays, sym: int)
    requires Fits(a) && Enlarged(a, b)
    requires a.net.last + 1 < |b.net.tc| && a.net.last + 1 < |b.net.t1| && a.net.last + 1 < |b.net.t2|
    requires a.net.last + 1 < |b.firstst| && a.net.last + 1 < |b.lastst|
    requires a.net.last + 1 < |b.finalst| && a.net.last + 1 < |b.accptnum|
    ensures StateMade(a, WithState(b, a.net.last + 1, sym), sym)
  {
    var c := WithState(b, a.net.last + 1, sym);
    forall s | 1 <= s <= a.net.last ensures SameAt(a, c, s) {}
  }

  class NfaBuilder {
    const csize: int
    const nextecm: array<int>
    const ecgroup: array<int>
    const cclflags: array<int>
    const ccls: CclTable
    var firstst: seq<int>
    var lastst: seq<int>
    var finalst: seq<int>
    var transchar: seq<int>
    var trans1: seq<int>
    var trans2: seq<int>
    var accptnum: seq<int>
    var lastnfa: int
    var currentMns: int

    ghost const Repr: set<object> := {this, nextecm, ecgroup, cclflags, ccls}

    ghost function State(): Arrays
      reads this
    {
      Arrays(Net(lastnfa, transchar, trans1, trans2), firstst, lastst, finalst, accptnum)
    }

    ghost predicate Sizes()
      reads this
    {
      && 0 <= lastnfa < currentMns && currentMns % MNS_INCREMENT == 0 && INITIAL_MNS <= currentMns < MAXIMUM_MNS
      && |firstst| == |lastst| == |finalst| == |transchar| == |trans1| == |trans2| == |accptnum| == currentMns
    }

    ghost predicate Shape() {
      && (csize == 128 || csize == CSIZE)
      && nextecm.Length == ecgroup.Length == CSIZE + 1 && cclflags.Length == CSIZE
      && nextecm != ecgroup && nextecm != cclflags && ecgroup != cclflags
    }

    ghost predicate Separate()
      reads ccls
    {
      Shape() && ccls.ccltbl != nextecm && ccls.ccltbl != ecgroup && ccls.ccltbl != cclflags
    }

    /** The partition of the characters is well linked and separates what the labels and classes so far tell apart. */
    ghost predicate CharsOk()
      reads `transchar, `lastnfa, ccls, ccls.ccltbl, nextecm, ecgroup, cclflags
    {
      && Separate() && ccls.Valid()
      && Ecs.WellLinked(nextecm[..], ecgroup[..], csize)
      && (forall q :: 0 <= q < cclflags.Length ==> cclflags[q] == 0)
      && ClassesOk(ccls.ccltbl[..], ccls.cclmap, ccls.ccllen, ccls.lastccl, ecgroup[..], csize)
      && CharsApart(transchar, lastnfa, ccls.lastccl, ecgroup[..], csize)
    }

    ghost predicate Valid()
      reads Repr, ccls.ccltbl
    {
      Sizes() && Separate() && ccls.Valid() && CharsOk()
    }

    /** No states, no classes, and all characters on one list. */
    constructor (csize: int)
      requires csize == 128 || csize == CSIZE
      ensures Valid() && fresh(Repr) && fresh(ccls.ccltbl) && lastnfa == 0 && ccls.lastccl == 0 && this.csize == csize
      ensures forall i :: 1 <= i <= csize ==> Ecs.Head(ecgroup[..], i) == 1
    {
      this.csize := csize;
      nextecm := new int[CSIZE + 1];
      ecgroup := new int[CSIZE + 1];
      cclflags := new int[CSIZE](_ => 0);
      ccls := new CclTable();
      firstst, lastst, finalst := seq(INITIAL_MNS, _ => 0), seq(INITIAL_MNS, _ => 0), seq(INITIAL_MNS, _ => 0);
      transchar, trans1, trans2 := seq(INITIAL_MNS, _ => 0), seq(INITIAL_MNS, _ => 0), seq(INITIAL_MNS, _ => 0);
      accptnum := seq(INITIAL_MNS, _ => 0);
      lastnfa, currentMns := 0, INITIAL_MNS;
      new;
      Ecs.InitLinks(nextecm, ecgroup, csize);
    }

    lemma Ready()
      requires Sizes()
      ensures Fits(State())
    {}

    /** The arrays have room for one more state, if the limit allows. */
    method Enlarge() returns (ok: bool)
      requires Sizes()
      modifies this`firstst, this`lastst, this`finalst, this`transchar, this`trans1, this`trans2,
               this`accptnum, this`currentMns
      ensures !ok ==> lastnfa == MOST_STATES
      ensures ok ==> Sizes() && lastnfa + 1 < currentMns && Enlarged(old(State()), State())
    {
      hide Longer;
      if lastnfa + 1 >= currentMns {
        currentMns := currentMns + MNS_INCREMENT;
        if currentMns >= MAXIMUM_MNS { return false; }
        firstst := Reallocate(firstst, currentMns);
        lastst := Reallocate(lastst, currentMns);
        finalst := Reallocate(finalst, currentMns);
        transchar := Reallocate(transchar, currentMns);
        trans1 := Reallocate(trans1, currentMns);
        trans2 := Reallocate(trans2, currentMns);
        accptnum := Reallocate(accptnum, currentMns);
      } else {
        Same();
      }
      return true;
    }

    lemma Same()
      ensures Enlarged(State(), State())
    {}

    /** The array part of mkstate. */
    method AppendState(sym: int) returns (ok: bool)
      requires Sizes()
      modifies this`firstst, this`lastst, this`finalst, this`transchar, this`trans1, this`trans2, this`accptnum,
               this`lastnfa, this`currentMns
      ensures !ok ==> old(lastnfa) == MOST_STATES
      ensures ok ==> Sizes() && StateMade(old(State()), State(), sym)
    {
      hide Enlarged, StateMade;
      ok := Enlarge();
      if !ok { return; }
      StateAppended(old(State()), State(), sym);
      lastnfa := lastnfa + 1;
      firstst := firstst[lastnfa := lastnfa];
      finalst := finalst[lastnfa := lastnfa];
      lastst := lastst[lastnfa := lastnfa];
      transchar := transchar[lastnfa := sym];
      trans1 := trans1[lastnfa := NO_TRANSITION];
      trans2 := trans2[lastnfa := NO_TRANSITION];
      accptnum := accptnum[lastnfa := 0];
    }

    /** mkstate. It fails only when the NFA has reached its largest size, or on a character outside the set. */
    method MkState(sym: int) returns (r: Result<int>)
      requires Valid() && sym <= SYM_EPSILON && (sym < 0 ==> -ccls.lastccl <= sym)
      modifies this`firstst, this`lastst, this`finalst, this`transchar, this`trans1, this`trans2, this`accptnum,
               this`lastnfa, this`currentMns, nextecm, ecgroup
      ensures r.Failure? ==> (r.error == TooManyStates && old(lastnfa) == MOST_STATES)
                             || (r.error == BadCharacter && csize <= sym < SYM_EPSILON)
      ensures r.Success? ==> lastnfa == old(lastnfa) + 1 && !(csize <= sym < SYM_EPSILON)
      ensures r.Success? ==> Valid() && r.value == lastnfa && StateMade(old(State()), State(), sym)
      ensures r.Success? ==> SplitOff(old(ecgroup[..]), ecgroup[..], sym, csize)
    {
      hide Ecs.WellLinked, ClassesOk, CharsApart, Ecs.RefinedBy, Ecs.SameOutside, StateMade;
      ghost var a := State();
      var ok := AppendState(sym);
      if !ok { return Failure(TooManyStates); }
      StateMadeChars(a, State(), sym);
      if sym < 0 || sym == SYM_EPSILON {
      } else {
        if sym >= csize { return Failure(BadCharacter); }
        var ch := if sym != 0 then sym else csize;
        ghost var before := ecgroup[..];
        if Whole(before, csize, [ch]) { NoLinks(nextecm[..], before, csize, ch); }
        Ecs.MkEchar(ch, nextecm, ecgroup, csize);
        ClassesRefined(ccls.ccltbl[..], ccls.cclmap, ccls.ccllen, ccls.lastccl, before, ecgroup[..], csize, [ch]);
        CharsRefined(a.net.tc, a.net.last, ccls.lastccl, before, ecgroup[..], csize, [ch]);
        WholeRefined(before, ecgroup[..], csize, [ch], []);
      }
      CharsNew(a.net.tc, a.net.last, transchar, ccls.lastccl, ecgroup[..], csize);
      return Success(lastnfa);
    }

    lemma StateMadeChars(a: Arrays, b: Arrays, sym: int)
      requires StateMade(a, b, sym)
      ensures b.net.last == a.net.last + 1 < |b.net.tc| && b.net.tc[b.net.last] == sym
      ensures a.net.last < |a.net.tc| && forall s :: 1 <= s <= a.net.last ==> b.net.tc[s] == a.net.tc[s]
    {}

    /** mkstate for an epsilon state, which leaves the partition as it is. */
    method MkEpsilon() returns (r: Result<int>)
      requires Valid()
      modifies this`firstst, this`lastst, this`finalst, this`transchar, this`trans1, this`trans2, this`accptnum,
               this`lastnfa, this`currentMns, nextecm, ecgroup
      ensures r.Failure? ==> r.error == TooManyStates && old(lastnfa) + 1 > MOST_STATES
      ensures r.Success? ==> Valid() && r.value == lastnfa && StateMade(old(State()), State(), SYM_EPSILON)
      ensures r.Success? ==> ecgroup[..] == old(ecgroup[..])
      ensures r.Success? ==> lastnfa == old(lastnfa) + 1
    {
      hide StateMade, CharsOk, Sizes;
      r := MkState(SYM_EPSILON);
    }

    /** mkxtion. */
    method MkXtion(statefrom: int, stateto: int) returns (r: Result<()>)
      requires Sizes() && 1 <= statefrom <= lastnfa
      modifies this`trans1, this`trans2
      ensures Sizes()
      ensures r.Success? <==> FreeSlot(old(State()).net, statefrom)
      ensures r.Success? ==> EdgeMade(old(State()), State(), statefrom, stateto)
      ensures r.Failure? ==> r.error == TooManyTransitions && State() == old(State())
    {
      if trans1[statefrom] == NO_TRANSITION {
        trans1 := trans1[statefrom := stateto];
      } else if transchar[statefrom] != SYM_EPSILON || trans2[statefrom] != NO_TRANSITION {
        return Failure(TooManyTransitions);
      } else {
        trans2 := trans2[statefrom := stateto];
      }
      return Success(());
    }

    /** link_machines. */
    method LinkMachines(first: int, last: int) returns (r: Result<int>, ghost mid: Arrays)
      requires Sizes() && 0 <= first <= lastnfa && 0 <= last <= lastnfa
      requires first > 0 ==> 1 <= finalst[first] <= lastnfa
      modifies this`trans1, this`trans2, this`firstst, this`lastst, this`finalst
      ensures Sizes() && mid.net == State().net
      ensures first == 0 ==> r == Success(last) && State() == old(State())
      ensures first != 0 && last == 0 ==> r == Success(first) && State() == old(State())
      ensures first != 0 && last != 0 && !FreeSlot(old(State()).net, old(finalst[first])) ==>
                r == Failure(TooManyTransitions) && State() == old(State())
      ensures first != 0 && last != 0 && FreeSlot(old(State()).net, old(finalst[first])) ==>
                && r == Success(first) && EdgeMade(old(State()), mid, old(finalst[first]), last)
                && Renamed(mid, State(), first, Linked(At(old(State()), first), At(old(State()), last)))
    {
      mid := State();
      if first == 0 {
        return Success(last), mid;
      } else if last == 0 {
        return Success(first), mid;
      } else {
        var _ :- MkXtion(finalst[first], last);
        mid := State();
        finalst := finalst[first := finalst[last]];
        lastst := lastst[first := if lastst[first] > lastst[last] then lastst[first] else lastst[last]];
        firstst := firstst[first := if firstst[first] < firstst[last] then firstst[first] else firstst[last]];
        return Success(first), mid;
      }
    }

    /** mkposcl with a new state, which leads back. */
    method LoopState(state: int) returns (r: Result<int>)
      requires Valid() && IsAt(State(), state) && lastst[state] == lastnfa
      modifies this, nextecm, ecgroup
      ensures r.Success? ==> ecgroup[..] == old(ecgroup[..])
      ensures r.Failure? ==> r.error == TooManyStates && old(lastnfa) + 1 > MOST_STATES
      ensures r.Success? ==> Valid()
      ensures r.Success?
              ==> Made(old(State()), State(), r.value, old(firstst[state]),
                    Plus(old(Accepts(State().net, At(State(), state)))))
      ensures r.Success? ==> lastnfa == old(lastnfa) + 1 && EndOf(State(), r.value) == Used
    {
      hide IsAt, StateMade, EdgeMade, Renamed, SameBelow, CharsOk, Made, Accepts, Plus, FreeSlot, EndOf;
      ghost var a := State();
      MachineFacts(a, state);
      var eps :- MkEpsilon();
      ghost var b := State();
      EpsilonAdded(a, b, state);
      MachineFacts(b, state);
      MachineFacts(b, eps);
      var done := MkXtion(eps, state);
      assert done.Success?;
      ghost var c := State();
      EdgeElsewhere(b, c, eps, state);
      var joined, mid := LinkMachines(state, eps);
      assert joined.Success?;
      LoopEpsMade(a, b, c, mid, State(), state);
      return Success(state);
    }

    /** mkposcl. */
    method MkPosCl(state: int) returns (r: Result<int>)
      requires Valid() && IsAt(State(), state) && lastst[state] == lastnfa
      modifies this, nextecm, ecgroup
      ensures r.Success? ==> ecgroup[..] == old(ecgroup[..])
      ensures r.Failure? ==> r.error == TooManyStates && old(lastnfa + PosStates(EndOf(State(), state))) > MOST_STATES
      ensures r.Success? ==> Valid()
      ensures r.Success?
              ==> Made(old(State()), State(), r.value, old(firstst[state]),
                    Plus(old(Accepts(State().net, At(State(), state)))))
      ensures r.Success? ==> lastnfa == old(lastnfa + PosStates(EndOf(State(), state)))
                             && EndOf(State(), r.value) == Used
    {
      hide IsAt, StateMade, EdgeMade, Renamed, SameBelow, CharsOk, Made, Accepts, Plus, FreeSlot;
      ghost var a := State();
      MachineFacts(a, state);
      if transchar[finalst[state]] == SYM_EPSILON && trans1[finalst[state]] == NO_TRANSITION {
        var done := MkXtion(finalst[state], state);
        assert done.Success?;
        LoopBackMade(a, State(), state);
        return Success(state);
      } else {
        r := LoopState(state);
      }
    }

    /** mkopt. */
    method MkOpt(mach0: int) returns (r: Result<int>)
      requires Valid() && IsAt(State(), mach0) && lastst[mach0] == lastnfa
      modifies this, nextecm, ecgroup
      ensures r.Success? ==> ecgroup[..] == old(ecgroup[..])
      ensures r.Failure? ==> r.error == TooManyStates && old(lastnfa + OptStates(EndOf(State(), mach0))) > MOST_STATES
      ensures r.Success? ==> Valid()
      ensures r.Success?
              ==> Made(old(State()), State(), r.value, old(firstst[mach0]),
                    UNIT + old(Accepts(State().net, At(State(), mach0))))
      ensures r.Success? ==> lastnfa == old(lastnfa + OptStates(EndOf(State(), mach0)))
                             && EndOf(State(), r.value) == Open
    {
      hide IsAt, StateMade, EdgeMade, Renamed, SameBelow, CharsOk, Made, Accepts, FreeSlot;
      ghost var a := State();
      var mach := mach0;
      MachineFacts(a, mach);
      if !(transchar[finalst[mach]] == SYM_EPSILON && trans1[finalst[mach]] == NO_TRANSITION) {
        mach :- AddEpsilon(mach);
      } else {
        MadeSelf(a, mach);
      }
      ghost var b := State();
      MadeFacts(a, b, mach, At(a, mach0).lo, Accepts(a.net, At(a, mach0)));
      MadeMachine(a, b, mach, At(a, mach0).lo, Accepts(a.net, At(a, mach0)));
      var eps :- SkipOver(mach);
      MadeAfter(a, b, State(), mach, eps, At(a, mach0).lo, Accepts(a.net, At(a, mach0)),
          UNIT + Accepts(a.net, At(a, mach0)));
      return Success(eps);
    }

    /** The second half of mkopt: an epsilon state in front that also leads to the final state, which has a free
        slot. */
    method SkipOver(mach: int) returns (r: Result<int>)
      requires Valid() && IsAt(State(), mach) && lastst[mach] == lastnfa
               && SuperFree(State().net, At(State(), mach).final)
      modifies this, nextecm, ecgroup
      ensures r.Success? ==> ecgroup[..] == old(ecgroup[..])
      ensures r.Failure? ==> r.error == TooManyStates && old(lastnfa) + 1 > MOST_STATES
      ensures r.Success? ==> Valid()
      ensures r.Success?
              ==> Made(old(State()), State(), r.value, At(old(State()), mach).lo,
                    UNIT + Accepts(old(State()).net, At(old(State()), mach)))
      ensures r.Success? ==> lastnfa == old(lastnfa) + 1 && EndOf(State(), r.value) == Open
    {
      hide IsAt, StateMade, EdgeMade, Renamed, SameBelow, CharsOk, Made, Accepts, FreeSlot, EndOf, SuperFree;
      ghost var b := State();
      MachineFacts(b, mach);
      var eps :- MkEpsilon();
      ghost var c := State();
      EpsilonAdded(b, c, mach);
      MachineFacts(c, mach);
      MachineFacts(c, eps);
      var joined, mid := LinkMachines(eps, mach);
      assert joined.Success?;
      ghost var d := State();
      OptSlot(b, c, mid, d, mach);
      var done := MkXtion(eps, finalst[eps]);
      assert done.Success?;
      SkipMade(b, c, mid, d, State(), mach);
      return Success(eps);
    }

    /** The first half of mkopt: a free epsilon state becomes the final state. */
    method AddEpsilon(mach: int) returns (r: Result<int>)
      requires Valid() && IsAt(State(), mach) && lastst[mach] == lastnfa
      modifies this, nextecm, ecgroup
      ensures r.Success? ==> ecgroup[..] == old(ecgroup[..])
      ensures r.Failure? ==> r.error == TooManyStates && old(lastnfa) + 1 > MOST_STATES
      ensures r.Success? ==> r.value == mach && Valid()
      ensures r.Success?
              ==> Made(old(State()), State(), mach, old(firstst[mach]), old(Accepts(State().net, At(State(), mach))))
      ensures r.Success? ==> SuperFree(State().net, At(State(), mach).final)
      ensures r.Success? ==> lastnfa == old(lastnfa) + 1
    {
      hide IsAt, StateMade, EdgeMade, Renamed, SameBelow, CharsOk, Made, Accepts, FreeSlot;
      ghost var a := State();
      MachineFacts(a, mach);
      var eps :- MkEpsilon();
      ghost var b := State();
      EpsilonAdded(a, b, mach);
      MachineFacts(b, mach);
      var joined, mid := LinkMachines(mach, eps);
      assert joined.Success?;
      EndMade(a, b, mid, State(), mach);
      return Success(mach);
    }

    /** mkclos. */
    method MkClos(state: int) returns (r: Result<int>)
      requires Valid() && IsAt(State(), state) && lastst[state] == lastnfa
      modifies this, nextecm, ecgroup
      ensures r.Success? ==> ecgroup[..] == old(ecgroup[..])
      ensures r.Failure? ==> r.error == TooManyStates
                             && old(lastnfa + PosStates(EndOf(State(), state))) + OptStates(Used) > MOST_STATES
      ensures r.Success? ==> Valid()
      ensures r.Success?
              ==> Made(old(State()), State(), r.value, old(firstst[state]),
                    Star(old(Accepts(State().net, At(State(), state)))))
      ensures r.Success? ==> lastnfa == old(lastnfa + PosStates(EndOf(State(), state))) + OptStates(Used)
                             && EndOf(State(), r.value) == Open
    {
      hide IsAt, CharsOk, Made, Accepts, Plus, Star;
      ghost var a := State();
      ghost var l, lo := Accepts(a.net, At(a, state)), At(a, state).lo;
      MachineFacts(a, state);
      var pos :- MkPosCl(state);
      ghost var b := State();
      MadeFacts(a, b, pos, lo, Plus(l));
      MadeMachine(a, b, pos, lo, Plus(l));
      OptPlus(l);
      var opt :- MkOpt(pos);
      MadeAfter(a, b, State(), pos, opt, lo, Plus(l), Star(l));
      return Success(opt);
    }

    /** mkor. */
    method MkOr(first0: int, second: int) returns (r: Result<int>)
      requires Valid() && 0 <= first0 <= lastnfa && 0 <= second <= lastnfa
      requires first0 != 0 && second != 0 ==>
                 && IsAt(State(), first0) && IsAt(State(), second)
                 && lastst[first0] + 1 == firstst[second] && lastst[second] == lastnfa
      modifies this, nextecm, ecgroup
      ensures r.Success? ==> ecgroup[..] == old(ecgroup[..])
      ensures first0 == 0 ==> r == Success(second) && State() == old(State())
      ensures first0 != 0 && second == 0 ==> r == Success(first0) && State() == old(State())
      ensures r.Failure? ==> r.error == TooManyStates
                             && old(lastnfa + OrStates(EndOf(State(), first0), EndOf(State(), second))) > MOST_STATES
      ensures r.Success? ==> Valid()
      ensures first0 != 0 && second != 0 && r.Success? ==>
                Made(old(State()), State(), r.value, old(firstst[first0]),
                     old(Accepts(State().net, At(State(), first0)) + Accepts(State().net, At(State(), second))))
      ensures first0 != 0 && second != 0 && r.Success? ==>
                lastnfa == old(lastnfa + OrStates(EndOf(State(), first0), EndOf(State(), second)))
                && EndOf(State(), r.value) == Open
    {
      hide IsAt, StateMade, EdgeMade, Renamed, SameBelow, CharsOk, Made, Accepts, FreeSlot, ForkMade;
      if first0 == 0 {
        return Success(second);
      } else if second == 0 {
        return Success(first0);
      }
      ghost var a := State();
      var first :- Branch(first0, second);
      MachineFacts(a, first0);
      var _ :- JoinFinals(first, second, first0, a);
      return Success(first);
    }

    /** The first cases of mkor: orend, the free final state of one machine, becomes that of both. */
    method JoinAt(first: int, second: int, other: int, orend: int, ghost first0: int, ghost a: Arrays)
      requires Valid() && ForkMade(a, State(), first, first0, second) && SuperFree(State().net, orend)
      requires || (orend == At(a, first0).final && other == At(a, second).final)
               || (orend == At(a, second).final && other == At(a, first0).final)
      modifies this`trans1, this`trans2, this`finalst
      ensures Valid() && EndOf(State(), first) == Open
      ensures Made(a, State(), first, At(a, first0).lo,
                   Accepts(a.net, At(a, first0)) + Accepts(a.net, At(a, second)))
    {
      hide IsAt, EdgeMade, SameBelow, CharsOk, Made, Accepts, FreeSlot, ForkMade, EndOf;
      ghost var d := State();
      ForkFacts(a, d, first, first0, second);
      var done := MkXtion(other, orend);
      assert done.Success?;
      OrIntoMade(a, d, State(), State().(finalst := finalst[first := orend]), first, first0, second, orend, other);
      finalst := finalst[first := orend];
    }

    /** The second part of mkor: both machines get the same final state. */
    method JoinFinals(first: int, second: int, ghost first0: int, ghost a: Arrays) returns (r: Result<()>)
      requires Valid() && ForkMade(a, State(), first, first0, second)
      modifies this, nextecm, ecgroup
      ensures r.Success? ==> ecgroup[..] == old(ecgroup[..])
      ensures r.Failure? ==> r.error == TooManyStates
                             && old(lastnfa) + OrStates(EndOf(a, first0), EndOf(a, second)) - 1 > MOST_STATES
      ensures r.Success? ==> Valid()
      ensures r.Success?
              ==> Made(a, State(), first, At(a, first0).lo,
                    Accepts(a.net, At(a, first0)) + Accepts(a.net, At(a, second)))
      ensures r.Success? ==> lastnfa == old(lastnfa) + OrStates(EndOf(a, first0), EndOf(a, second)) - 1
                             && EndOf(State(), first) == Open
    {
      hide IsAt, StateMade, EdgeMade, Renamed, SameBelow, CharsOk, Made, Accepts, FreeSlot, ForkMade, EndOf;
      ghost var d := State();
      ForkFacts(a, d, first, first0, second);
      ForkEnds(a, d, first, first0, second);
      if transchar[finalst[first]] == SYM_EPSILON && trans1[finalst[first]] == NO_TRANSITION
          && accptnum[finalst[first]] == 0 {
        JoinAt(first, second, finalst[second], finalst[first], first0, a);
      } else if transchar[finalst[second]] == SYM_EPSILON && trans1[finalst[second]] == NO_TRANSITION
          && accptnum[finalst[second]] == 0 {
        JoinAt(first, second, finalst[first], finalst[second], first0, a);
      } else {
        var orend :- JoinEnds(first, second, first0, a);
        assert finalst[first := orend] == finalst;
        finalst := finalst[first := orend];
      }
      return Success(());
    }

    /** The first part of mkor: a new epsilon state leads to both machines. */
    method Branch(first: int, second: int) returns (r: Result<int>)
      requires Valid() && IsAt(State(), first) && IsAt(State(), second)
      requires lastst[first] + 1 == firstst[second] && lastst[second] == lastnfa
      modifies this, nextecm, ecgroup
      ensures r.Success? ==> ecgroup[..] == old(ecgroup[..])
      ensures r.Failure? ==> r.error == TooManyStates && old(lastnfa) + 1 > MOST_STATES
      ensures r.Success? ==> Valid() && ForkMade(old(State()), State(), r.value, first, second)
      ensures r.Success? ==> lastnfa == old(lastnfa) + 1
    {
      hide *;
      ghost var a := State();
      StateIs();
      MachineFacts(a, first);
      MachineFacts(a, second);
      var made := MkEpsilon();
      if made.Failure? { return Failure(made.error); }
      var eps := made.value;
      StateIs();
      Fine();
      ghost var b := State();
      EpsilonAdded(a, b, first);
      EpsilonAdded(a, b, second);
      MachineFacts(b, first);
      MachineFacts(b, eps);
      var joined, mid := LinkMachines(eps, first);
      assert joined.Success?;
      ghost var c := State();
      HeadSlot(a, b, mid, c, first);
      var done := MkXtion(eps, second);
      assert done.Success?;
      ForkDone(a, b, mid, c, State(), first, second);
      NowFine();
      return Success(eps);
    }

    /** The last case of mkor: both machines lead to a new final state. */
    method JoinEnds(first: int, second: int, ghost first0: int, ghost a: Arrays) returns (r: Result<int>)
      requires Valid() && ForkMade(a, State(), first, first0, second)
      modifies this, nextecm, ecgroup
      ensures r.Success? ==> ecgroup[..] == old(ecgroup[..])
      ensures r.Failure? ==> r.error == TooManyStates && old(lastnfa) + 1 > MOST_STATES
      ensures r.Success? ==> Valid() && first < |finalst| && finalst[first] == r.value
      ensures r.Success?
              ==> Made(a, State(), first, At(a, first0).lo,
                    Accepts(a.net, At(a, first0)) + Accepts(a.net, At(a, second)))
      ensures r.Success? ==> lastnfa == old(lastnfa) + 1 && EndOf(State(), first) == Open
    {
      hide *;
      ghost var d := State();
      StateIs();
      Fine();
      ForkFacts(a, d, first, first0, second);
      var made := MkEpsilon();
      if made.Failure? { return made; }
      StateIs();
      Fine();
      ghost var b := State();
      JoinSlots(a, d, b, first, first0, second);
      var joined, mid := LinkMachines(first, made.value);
      assert joined.Success?;
      ghost var c := State();
      StateIs();
      JoinSlotLeft(a, b, mid, c, first, first0, second);
      var orend := finalst[first];
      var done := MkXtion(finalst[second], orend);
      assert done.Success?;
      StateIs();
      OrEpsMade(a, d, b, mid, c, State(), first, first0, second);
      NowFine();
      return Success(orend);
    }

    /** Labels of existing states can be given to new ones. */
    lemma LabelUsable(i: int)
      requires Valid() && 1 <= i <= lastnfa
      ensures IsLabel(transchar[i], ccls.lastccl, csize) && csize <= CSIZE
      ensures transchar[i] <= SYM_EPSILON && (transchar[i] < 0 ==> -ccls.lastccl <= transchar[i])
      ensures !(csize <= transchar[i] < SYM_EPSILON) && i < |transchar| && i < |accptnum|
      ensures 0 <= transchar[i] < csize ==> Whole(ecgroup[..], csize, [Ecs.MapNul(transchar[i], csize)])
    {}

    /** The loop of dupmachine: every state is copied; the result is the distance between a state and its copy. */
    method CopyStates(mach: int) returns (r: Result<int>)
      requires Valid() && IsAt(State(), mach)
      modifies this, nextecm, ecgroup
      ensures r.Success? ==> ecgroup[..] == old(ecgroup[..])
      ensures r.Failure? ==> r.error == TooManyStates && old(lastnfa + Extent(State(), mach)) > MOST_STATES
      ensures r.Success? ==> Valid() && r.value == old(lastnfa + 1) - At(old(State()), mach).lo
      ensures r.Success?
              ==> Copying(old(State()), State(), At(old(State()), mach).lo, At(old(State()), mach).hi + 1, r.value)
      ensures r.Success? ==> lastnfa == old(lastnfa + Extent(State(), mach))
    {
      hide IsAt, CharsOk, Copying;
      ghost var a := State();
      MachineFacts(a, mach);
      ghost var lo, off := firstst[mach], lastnfa + 1 - firstst[mach];
      var last := lastst[mach];
      var state := 0;
      var i := firstst[mach];
      CopyStart(a, mach);
      while i <= last
        invariant lo <= i <= last + 1 && state == (if i == lo then 0 else i - 1 + off)
        invariant lastnfa == i - 1 + off
        invariant Valid() && ecgroup[..] == old(ecgroup[..]) && Copying(a, State(), lo, i, off)
      {
        state :- CopyState(mach, i, a, off);
        i := i + 1;
      }
      assert state != 0;
      return Success(state - i + 1);
    }

    /** dupmachine. */
    method DupMachine(mach: int) returns (r: Result<int>)
      requires Valid() && IsAt(State(), mach)
      modifies this, nextecm, ecgroup
      ensures r.Success? ==> ecgroup[..] == old(ecgroup[..])
      ensures r.Failure? ==> r.error == TooManyStates && old(lastnfa + Extent(State(), mach)) > MOST_STATES
      ensures r.Success? ==> Valid()
      ensures r.Success?
              ==> Made(old(State()), State(), r.value, old(lastnfa) + 1, old(Accepts(State().net, At(State(), mach))))
      ensures r.Success? ==> lastnfa == old(lastnfa + Extent(State(), mach))
                             && EndOf(State(), r.value) == old(EndOf(State(), mach))
    {
      hide *;
      ghost var a := State();
      LastIs();
      var copied := CopyStates(mach);
      if copied.Failure? { return Failure(copied.error); }
      var init := NameCopy(mach, copied.value, a);
      return Success(init);
    }

    lemma StateIs()
      ensures State() == Arrays(Net(lastnfa, transchar, trans1, trans2), firstst, lastst, finalst, accptnum)
    {}

    /** Valid taken apart, and put together again, for proofs that do not look into its parts. */
    lemma Fine()
      requires Valid()
      ensures Sizes() && Separate() && ccls.Valid() && CharsOk() && Fits(State())
      ensures 0 <= lastnfa && |firstst| == |lastst| == |finalst| == |transchar| == |trans1| == |trans2| == |accptnum|
              > lastnfa
    {
      hide CharsOk;
    }

    lemma NowFine()
      requires Sizes() && Separate() && ccls.Valid() && CharsOk()
      ensures Valid()
    {
      hide CharsOk;
    }

    /** The NFA is never larger than this. */
    lemma Within()
      requires Valid()
      ensures 0 <= lastnfa <= MOST_STATES
    {
      hide CharsOk;
    }

    lemma ReprIs()
      ensures Repr == {this, nextecm, ecgroup, cclflags, ccls}
    {}

    lemma LastIs()
      ensures State().net.last == lastnfa && State().firstst == firstst && State().lastst == lastst
    {}

    /** The end of dupmachine: the copy gets its first, last and final states. */
    method NameCopy(mach: int, stateOffset: int, ghost a: Arrays) returns (init: int)
      requires Valid() && IsAt(a, mach) && stateOffset == a.net.last + 1 - At(a, mach).lo
      requires Copying(a, State(), At(a, mach).lo, At(a, mach).hi + 1, stateOffset)
      modifies this`firstst, this`lastst, this`finalst
      ensures Valid() && Made(a, State(), init, a.net.last + 1, Accepts(a.net, At(a, mach)))
      ensures EndOf(State(), init) == EndOf(a, mach)
    {
      hide IsAt, CharsOk, Made, Accepts, Copying, Renamed, EndOf;
      init := mach + stateOffset;
      ghost var b := State();
      MachineFacts(a, mach);
      CopyBounds(a, b, mach, stateOffset);
      firstst := firstst[init := firstst[mach] + stateOffset];
      finalst := finalst[init := finalst[mach] + stateOffset];
      lastst := lastst[init := lastst[mach] + stateOffset];
      RenamedNow(b, State(), init, Shifted(At(a, mach), stateOffset));
      CopyDone(a, b, State(), mach, stateOffset);
    }

    /** The loop body of dupmachine. */
    method CopyState(mach: int, i: int, ghost a: Arrays, ghost off: int) returns (r: Result<int>)
      requires Valid() && IsAt(a, mach) && Copying(a, State(), At(a, mach).lo, i, off) && i <= At(a, mach).hi
      modifies this, nextecm, ecgroup
      ensures r.Success? ==> ecgroup[..] == old(ecgroup[..])
      ensures r.Failure? ==> r.error == TooManyStates && old(lastnfa) + 1 > MOST_STATES
      ensures r.Success? ==> Valid() && r.value == lastnfa == i + off
      ensures r.Success? ==> Copying(a, State(), At(a, mach).lo, i + 1, off)
      ensures r.Success? ==> lastnfa == old(lastnfa) + 1
    {
      hide *;
      ghost var b, parts := State(), ecgroup[..];
      StateIs();
      CopySource(a, b, mach, i, off);
      LabelUsable(i);
      var made := MkState(transchar[i]);
      if made.Failure? { return Failure(made.error); }
      var state := made.value;
      StateIs();
      NotSplitOff(parts, ecgroup[..], a.net.tc[i], csize);
      StateKeeps(b, State(), a.net.tc[i], i);
      CopyEdges(state, i, b, off);
      ghost var z := State();
      LabelUsable(i);
      StateIs();
      SetAccept(state, accptnum[i]);
      StateIs();
      FilledQuiet(b, z, State(), a.net.tc[i], if a.net.t1[i] == 0 then 0 else a.net.t1[i] + off, if a.net.t2[i] == 0
          then 0 else a.net.t2[i] + off);
      CopyStep(a, b, State(), At(a, mach).lo, i, off);
      return Success(state);
    }

    method SetAccept(state: int, accept: int)
      requires Valid() && 1 <= state <= lastnfa
      modifies this`accptnum
      ensures Valid() && lastnfa < |old(accptnum)| && accptnum == old(accptnum)[state := accept]
    {
      hide CharsOk;
      accptnum := accptnum[state := accept];
    }

    /** The new state gets the transitions of state i, moved along. */
    method CopyEdges(state: int, i: int, ghost b: Arrays, ghost off: int)
      requires Valid() && 1 <= i < state == lastnfa && off == state - i && StateMade(b, State(), transchar[i])
      requires trans2[i] != 0 ==> transchar[i] == SYM_EPSILON && trans1[i] != 0
      requires trans1[i] != 0 ==> trans1[i] + off != 0
      modifies this`trans1, this`trans2
      ensures Valid()
      ensures Filled(b, State(), old(transchar[i]), if old(trans1[i]) == 0 then 0 else old(trans1[i]) + off,
                     if old(trans2[i]) == 0 then 0 else old(trans2[i]) + off)
      ensures accptnum == old(accptnum)
    {
      hide IsAt, CharsOk, Copying, StateMade, EdgeMade, Filled, FreeSlot;
      ghost var sym, x1, x2 := transchar[i], trans1[i], trans2[i];
      FilledNone(b, State(), sym);
      if trans1[i] != NO_TRANSITION {
        ghost var c := State();
        var done := MkXtion(finalst[state], trans1[i] + state - i);
        assert done.Success?;
        FilledEdge(b, c, State(), sym, 0, 0, x1 + off);
        EdgeKeepsAt(c, State(), state, x1 + off, i);
        if transchar[i] == SYM_EPSILON && trans2[i] != NO_TRANSITION {
          ghost var d := State();
          done := MkXtion(finalst[state], trans2[i] + state - i);
          assert done.Success?;
          FilledEdge(b, d, State(), sym, x1 + off, 0, x2 + off);
        }
      }
    }

    /** The loop body of copysingl: one more copy behind those there are. */
    method OneCopy(singl: int, copy: int, ghost a: Arrays, ghost l: Lang, ghost k: nat) returns (r: Result<int>)
      requires Valid() && IsAt(a, singl) && Accepts(a.net, At(a, singl)) == l
      requires Made(a, State(), copy, a.net.last + 1, Pow(l, k))
      modifies this, nextecm, ecgroup
      ensures r.Success? ==> ecgroup[..] == old(ecgroup[..])
      ensures r.Failure? ==> r.error == TooManyStates && old(lastnfa) + Extent(a, singl) > MOST_STATES
      ensures r.Success? ==> Valid() && Made(a, State(), r.value, a.net.last + 1, Pow(l, k + 1))
      ensures r.Success? ==> lastnfa == old(lastnfa) + Extent(a, singl) && EndOf(State(), r.value) == EndOf(a, singl)
    {
      hide IsAt, SameBelow, CharsOk, Made, Accepts, Pow, Cat, EndOf, Extent;
      ghost var b := State();
      MachineFacts(a, singl);
      MadeMachine(a, b, copy, a.net.last + 1, Pow(l, k));
      KeptBelow(a, b, a.net.last + 1, singl);
      EndKept(a, b, a.net.last + 1, singl);
      var dup :- DupMachine(singl);
      var m := LinkBehind(a, b, copy, dup, a.net.last + 1, Pow(l, k), l);
      PowAdd(l, k, 1);
      PowOne(l);
      return Success(m);
    }

    /** copysingl. */
    method CopySingl(singl: int, num: int) returns (r: Result<int>)
      requires Valid() && IsAt(State(), singl)
      modifies this, nextecm, ecgroup
      ensures r.Success? ==> ecgroup[..] == old(ecgroup[..])
      ensures r.Failure? ==> r.error == TooManyStates
                             && old(lastnfa) + 1 + Copies(num, old(Extent(State(), singl))) > MOST_STATES
      ensures r.Success? ==> Valid()
      ensures r.Success? ==> Made(old(State()), State(), r.value, old(lastnfa) + 1,
                                  Pow(old(Accepts(State().net, At(State(), singl))), if num > 0 then num else 0))
      ensures r.Success? ==> lastnfa == old(lastnfa) + 1 + Copies(num, old(Extent(State(), singl)))
                             && EndOf(State(), r.value) == if num > 0 then old(EndOf(State(), singl)) else Open
    {
      hide IsAt, StateMade, EdgeMade, Renamed, SameBelow, CharsOk, Made, Accepts, Pow, FreeSlot, EndOf, Extent, Copies;
      ghost var a := State();
      MachineFacts(a, singl);
      ghost var l, size, end := Accepts(a.net, At(a, singl)), Extent(a, singl), EndOf(a, singl);
      CopiesNone(num, size);
      CopiesNone(0, size);
      ExtentIs(a, singl);
      var copy :- MkEpsilon();
      StateMachine(a, State(), SYM_EPSILON);
      PowNone(l);
      var i := 1;
      while i <= num
        invariant 1 <= i && (i <= num + 1 || i == 1)
        invariant Valid() && ecgroup[..] == old(ecgroup[..])
        invariant lastnfa == a.net.last + 1 + Copies(i - 1, size)
                  && EndOf(State(), copy) == if i > 1 then end else Open
        invariant Made(a, State(), copy, a.net.last + 1, Pow(l, i - 1))
      {
        CopiesStep(i, num, size);
        copy :- OneCopy(singl, copy, a, l, i - 1);
        i := i + 1;
      }
      return Success(copy);
    }

    /** link_machines for the two last machines. */
    method LinkBehind(ghost a: Arrays, ghost b: Arrays, first: int, last: int, ghost lo: int, ghost l1: Lang,
                      ghost l2: Lang) returns (m: int)
      requires Valid() && Made(a, b, first, lo, l1) && Made(b, State(), last, b.net.last + 1, l2)
      modifies this`trans1, this`trans2, this`firstst, this`lastst, this`finalst
      ensures m == first && Valid() && Made(a, State(), m, lo, Cat(l1, l2))
      ensures EndOf(State(), m) == old(EndOf(State(), last))
    {
      hide IsAt, StateMade, EdgeMade, Renamed, SameBelow, CharsOk, Made, Accepts, Cat, FreeSlot, EndOf;
      ghost var c := State();
      MadeMachine(a, b, first, lo, l1);
      MachineFacts(b, first);
      MadeMachine(b, c, last, b.net.last + 1, l2);
      KeptBelow(b, c, b.net.last + 1, first);
      MachineFacts(c, first);
      MachineFacts(c, last);
      var joined, mid := LinkMachines(first, last);
      assert joined.Success?;
      LinkMade(c, mid, State(), first, last);
      MadeLinked(a, b, c, State(), first, last, lo);
      m := joined.value;
    }

    /** The tail of mkrep for INFINITY: the closure of one more copy. */
    method StarCopy(mach: int, ghost b: Arrays, ghost l: Lang) returns (r: Result<int>)
      requires Valid() && State() == b && IsAt(b, mach) && Accepts(b.net, At(b, mach)) == l
      modifies this, nextecm, ecgroup
      ensures r.Success? ==> ecgroup[..] == old(ecgroup[..])
      ensures r.Failure? ==> r.error == TooManyStates
                             && old(lastnfa) + Extent(b, mach) + PosStates(EndOf(b, mach)) + OptStates(Used)
                                > MOST_STATES
      ensures r.Success? ==> Valid() && Made(b, State(), r.value, b.net.last + 1, Star(l))
      ensures r.Success? ==> EndOf(State(), r.value) == Open
                             && lastnfa == old(lastnfa) + Extent(b, mach) + PosStates(EndOf(b, mach)) + OptStates(Used)
    {
      hide IsAt, CharsOk, Made, Accepts, Star, SameBelow, EndOf, Extent, PosStates, OptStates;
      var copy :- DupMachine(mach);
      ghost var c := State();
      MadeMachine(b, c, copy, b.net.last + 1, l);
      MachineFacts(c, copy);
      var tail :- MkClos(copy);
      MadeAfter(b, c, State(), copy, tail, b.net.last + 1, l, Star(l));
      return Success(tail);
    }

    /** mkrep: lb to ub copies, or lb and more when ub is INFINITY. */
    method MkRep(mach: int, lb: int, ub: int) returns (r: Result<int>)
      requires Valid() && IsAt(State(), mach) && lastst[mach] == lastnfa && 1 <= lb
      modifies this, nextecm, ecgroup
      ensures r.Success? ==> ecgroup[..] == old(ecgroup[..])
      ensures r.Failure? ==> r.error == TooManyStates
                             && old(lastnfa + RepStates(Extent(State(), mach), EndOf(State(), mach), lb, ub))
                                > MOST_STATES
      ensures r.Success? ==> Valid()
      ensures r.Success? ==> Made(old(State()), State(), r.value, old(firstst[mach]),
                                  Repeated(old(Accepts(State().net, At(State(), mach))), lb, ub))
      ensures r.Success? ==> lastnfa == old(lastnfa + RepStates(Extent(State(), mach), EndOf(State(), mach), lb, ub))
                             && EndOf(State(), r.value) == Open
    {
      hide IsAt, CharsOk, Made, Accepts, Pow, Cat, SameBelow, EndOf, Extent, Copies, TailStates, TailLang, Repeated;
      ghost var a := State();
      MachineFacts(a, mach);
      ghost var l, k := Accepts(a.net, At(a, mach)), a.net.last + 1;
      ExtentIs(a, mach);
      MadeSelf(a, mach);
      var baseMach :- CopySingl(mach, lb - 1);
      ghost var b := State();
      MadeMachine(a, b, baseMach, k, Pow(l, lb - 1));
      KeptBelow(a, b, k, mach);
      EndKept(a, b, k, mach);
      var tail :- RepTail(mach, lb, ub, b, l);
      r := LinkTail(mach, baseMach, tail, a, b, At(a, mach).lo, l, Pow(l, lb - 1), TailLang(l, lb, ub));
      RepeatedLang(l, lb, ub);
    }

    /** The tail of mkrep: copies that may be left out, or any number of them. */
    method RepTail(mach: int, lb: int, ub: int, ghost b: Arrays, ghost l: Lang) returns (r: Result<int>)
      requires Valid() && State() == b && IsAt(b, mach) && At(b, mach).hi <= b.net.last
               && Accepts(b.net, At(b, mach)) == l
      modifies this, nextecm, ecgroup
      ensures r.Success? ==> ecgroup[..] == old(ecgroup[..])
      ensures r.Failure? ==> r.error == TooManyStates
                             && old(lastnfa) + TailStates(Extent(b, mach), EndOf(b, mach), lb, ub) > MOST_STATES
      ensures r.Success? ==> Valid() && Made(b, State(), r.value, b.net.last + 1, TailLang(l, lb, ub))
      ensures r.Success? ==> lastnfa == old(lastnfa) + TailStates(Extent(b, mach), EndOf(b, mach), lb, ub)
                             && EndOf(State(), r.value) == Open
    {
      hide IsAt, CharsOk, Made, Accepts, Star, Times, EndOf, Extent, Copies, PosStates, OptStates;
      if ub == INFINITY {
        r := StarCopy(mach, b, l);
      } else {
        r := OptionalCopies(mach, lb, ub, b, l);
      }
    }

    /** The tail of mkrep for a finite upper bound: ub - lb optional copies. */
    method OptionalCopies(mach: int, lb: int, ub: int, ghost b: Arrays, ghost l: Lang) returns (r: Result<int>)
      requires Valid() && State() == b && IsAt(b, mach) && At(b, mach).hi <= b.net.last
               && Accepts(b.net, At(b, mach)) == l
      modifies this, nextecm, ecgroup
      ensures r.Success? ==> ecgroup[..] == old(ecgroup[..])
      ensures r.Failure? ==> r.error == TooManyStates
                             && old(lastnfa) + 1 + Copies(ub - lb, Extent(b, mach) + 1) > MOST_STATES
      ensures r.Success?
              ==> Valid() && Made(b, State(), r.value, b.net.last + 1, Times(l, 0, if ub > lb then ub - lb else 0))
      ensures r.Success? ==> lastnfa == old(lastnfa) + 1 + Copies(ub - lb, Extent(b, mach) + 1)
                             && EndOf(State(), r.value) == Open
    {
      hide IsAt, CharsOk, Made, Accepts, Pow, Cat, Star, SameBelow, Times, AtLeast, EndOf, Extent, Copies;
      ghost var size := Extent(b, mach) + 1;
      CopiesNone(0, size);
      CopiesNone(ub - lb, size);
      ExtentIs(b, mach);
      var tail :- MkEpsilon();
      StateMachine(b, State(), SYM_EPSILON);
      TimesNone(l);
      var i := lb;
      while i < ub
        invariant lb <= i && (i <= ub || i == lb)
        invariant Valid() && ecgroup[..] == old(ecgroup[..])
        invariant lastnfa == b.net.last + 1 + Copies(i - lb, size) && EndOf(State(), tail) == Open
        invariant Made(b, State(), tail, b.net.last + 1, Times(l, 0, i - lb))
      {
        CopiesStep(i - lb + 1, ub - lb, size);
        tail :- OneMore(mach, tail, b, b.net.last + 1, l, i - lb);
        i := i + 1;
      }
      return Success(tail);
    }

    /** The loop body of mkrep: one more optional copy in front of tail. */
    method OneMore(mach: int, tail: int, ghost b: Arrays, ghost lo: int, ghost l: Lang, ghost k: nat)
      returns (r: Result<int>)
      requires Valid() && IsAt(b, mach) && At(b, mach).hi < lo && Accepts(b.net, At(b, mach)) == l
      requires Made(b, State(), tail, lo, Times(l, 0, k)) && EndOf(State(), tail) == Open
      modifies this, nextecm, ecgroup
      ensures r.Success? ==> ecgroup[..] == old(ecgroup[..])
      ensures r.Failure? ==> r.error == TooManyStates && old(lastnfa) + Extent(b, mach) + 1 > MOST_STATES
      ensures r.Success? ==> Valid() && Made(b, State(), r.value, lo, Times(l, 0, k + 1))
      ensures r.Success? ==> lastnfa == old(lastnfa) + Extent(b, mach) + 1 && EndOf(State(), r.value) == Open
    {
      hide IsAt, CharsOk, Made, Accepts, Cat, SameBelow, Times, EndOf, Extent;
      ghost var t := Times(l, 0, k);
      var copy :- PutInFront(mach, tail, b, lo, l, t);
      ghost var e := State();
      MadeMachine(b, e, copy, lo, Cat(l, t));
      MachineFacts(e, copy);
      TimesNest(l, k);
      var opt :- MkOpt(copy);
      MadeAfter(b, e, State(), copy, opt, lo, Cat(l, t), Times(l, 0, k + 1));
      return Success(opt);
    }

    /** A copy of mach linked in front of tail. */
    method PutInFront(mach: int, tail: int, ghost b: Arrays, ghost lo: int, ghost l: Lang, ghost t: Lang)
      returns (r: Result<int>)
      requires Valid() && IsAt(b, mach) && At(b, mach).hi < lo && Accepts(b.net, At(b, mach)) == l
      requires Made(b, State(), tail, lo, t)
      modifies this, nextecm, ecgroup
      ensures r.Success? ==> ecgroup[..] == old(ecgroup[..])
      ensures r.Failure? ==> r.error == TooManyStates && old(lastnfa) + Extent(b, mach) > MOST_STATES
      ensures r.Success? ==> Valid() && Made(b, State(), r.value, lo, Cat(l, t))
      ensures r.Success? ==> lastnfa == old(lastnfa) + Extent(b, mach)
                             && EndOf(State(), r.value) == old(EndOf(State(), tail))
    {
      hide IsAt, CharsOk, Made, Accepts, Cat, SameBelow, EndOf, Extent;
      ghost var c := State();
      MadeMachine(b, c, tail, lo, t);
      KeptBelow(b, c, lo, mach);
      EndKept(b, c, lo, mach);
      var copy :- DupMachine(mach);
      LinkInFront(b, c, copy, tail, lo, l, t);
      return Success(copy);
    }

    /** link_machines for the two last machines, the last one in front. */
    method LinkInFront(ghost b: Arrays, ghost c: Arrays, first: int, last: int, ghost lo: int, ghost l1: Lang,
                       ghost l2: Lang)
      requires Valid() && Made(b, c, last, lo, l2) && Made(c, State(), first, c.net.last + 1, l1)
      modifies this`trans1, this`trans2, this`firstst, this`lastst, this`finalst
      ensures Valid() && Made(b, State(), first, lo, Cat(l1, l2)) && EndOf(State(), first) == EndOf(c, last)
    {
      hide IsAt, EdgeMade, Renamed, CharsOk, Made, Accepts, Cat, SameBelow, FreeSlot, EndOf, Extent;
      ghost var d := State();
      MadeMachine(b, c, last, lo, l2);
      MadeMachine(c, d, first, c.net.last + 1, l1);
      KeptBelow(c, d, c.net.last + 1, last);
      EndKept(c, d, c.net.last + 1, last);
      MachineFacts(c, last);
      MachineFacts(d, first);
      MachineFacts(d, last);
      var joined, mid := LinkMachines(first, last);
      assert joined.Success?;
      LinkMade(d, mid, State(), first, last);
      MadeLinked(b, c, d, State(), first, last, lo);
    }

    /** The end of mkrep: mach, baseMach and tail are linked in a row. */
    method LinkTail(mach: int, baseMach: int, tail: int, ghost a: Arrays, ghost b: Arrays, ghost lo: int,
                    ghost l: Lang, ghost l1: Lang, ghost l2: Lang) returns (r: Result<int>)
      requires Valid() && Made(a, a, mach, lo, l) && Made(a, b, baseMach, a.net.last + 1, l1)
      requires Made(b, State(), tail, b.net.last + 1, l2)
      modifies this`trans1, this`trans2, this`firstst, this`lastst, this`finalst
      ensures Valid() && r == Success(mach) && Made(a, State(), mach, lo, Cat(l, Cat(l1, l2)))
      ensures EndOf(State(), mach) == old(EndOf(State(), tail))
    {
      hide IsAt, CharsOk, Made, Accepts, Cat, SameBelow, EndOf;
      var m := LinkBehind(a, b, baseMach, tail, a.net.last + 1, l1, l2);
      m := LinkBehind(a, a, mach, m, lo, l, Cat(l1, l2));
      return Success(m);
    }

    /** add_accept behind a symbol: an epsilon state is linked behind the machine and gets the number. */
    method HangAccept(mach: int, acceptingNumber: int) returns (r: Result<()>)
      requires Valid() && IsAt(State(), mach) && lastst[mach] == lastnfa
      modifies this, nextecm, ecgroup
      ensures r.Success? ==> ecgroup[..] == old(ecgroup[..])
      ensures r.Failure? ==> r.error == TooManyStates && old(lastnfa) + 1 > MOST_STATES
      ensures r.Success? ==> Valid() && lastnfa == old(lastnfa) + 1
      ensures r.Success? ==> RuleMade(old(State()), State(), mach, old(firstst[mach]), acceptingNumber,
                                      old(Accepts(State().net, At(State(), mach))))
    {
      hide IsAt, CharsOk, Made, Accepts, StateMade, EdgeMade, Renamed, SameBelow, FreeSlot, RuleMade, EndOf;
      ghost var a := State();
      MachineFacts(a, mach);
      var astate :- MkEpsilon();
      ghost var b := State();
      EpsilonAdded(a, b, mach);
      MachineFacts(b, mach);
      AcceptLater(a, b, mach, acceptingNumber);
      accptnum := accptnum[astate := acceptingNumber];
      ghost var c := State();
      var joined, mid := LinkMachines(mach, astate);
      assert joined.Success?;
      ghost var d := State().(accptnum := b.accptnum);
      EndMade(a, b, mid.(accptnum := b.accptnum), d, mach);
      RuleAccepts(a, d, State(), mach, acceptingNumber, astate);
      return Success(());
    }

    /** add_accept: the rule number is hung on an epsilon state at the end of the machine. */
    method AddAccept(mach: int, acceptingNumber: int) returns (r: Result<()>)
      requires Valid() && IsAt(State(), mach) && lastst[mach] == lastnfa
      modifies this, nextecm, ecgroup
      ensures r.Success? ==> ecgroup[..] == old(ecgroup[..])
      ensures r.Failure? ==> r.error == TooManyStates && old(lastnfa + AcceptStates(EndOf(State(), mach))) > MOST_STATES
      ensures r.Success? ==> Valid()
      ensures r.Success? ==> RuleMade(old(State()), State(), mach, old(firstst[mach]), acceptingNumber,
                                      old(Accepts(State().net, At(State(), mach))))
      ensures r.Success? ==> lastnfa == old(lastnfa + AcceptStates(EndOf(State(), mach)))
    {
      hide IsAt, CharsOk, Made, Accepts, StateMade, EdgeMade, Renamed, SameBelow, FreeSlot, RuleMade;
      ghost var a := State();
      MachineFacts(a, mach);
      if transchar[finalst[mach]] == SYM_EPSILON {
        MadeSelf(a, mach);
        RuleAccepts(a, a, a.(accptnum := accptnum[finalst[mach] := acceptingNumber]), mach, acceptingNumber,
            At(a, mach).final);
        accptnum := accptnum[finalst[mach] := acceptingNumber];
      } else {
        var _ :- HangAccept(mach, acceptingNumber);
      }
      return Success(());
    }

    /** mkbranch. */
    method MkBranch(first: int, second: int) returns (r: Result<int>)
      requires Valid() && 0 <= first <= lastnfa && 0 <= second <= lastnfa && Closed(State().net, 1, lastnfa)
      modifies this, nextecm, ecgroup
      ensures r.Success? ==> ecgroup[..] == old(ecgroup[..])
      ensures r.Failure? ==> r.error == TooManyStates
                             && old(lastnfa) + 1 > MOST_STATES
      ensures first == 0 ==> r == Success(second) && State() == old(State())
      ensures first != 0 && second == 0 ==> r == Success(first) && State() == old(State())
      ensures r.Success? ==> Valid()
      ensures first != 0 && second != 0 && r.Success? ==> Branched(old(State()), State(), r.value, first, second)
      ensures first != 0 && second != 0 && r.Success? ==>
                lastnfa == old(lastnfa) + 1
    {
      hide CharsOk, StateMade, EdgeMade, FreeSlot, Branched;
      if first == 0 {
        return Success(second);
      } else if second == 0 {
        return Success(first);
      }
      ghost var a := State();
      var eps :- MkEpsilon();
      ghost var b := State();
      BranchStart(a, b);
      var done := MkXtion(eps, first);
      assert done.Success?;
      ghost var c := State();
      BranchSlot(b, c, eps, first);
      done := MkXtion(eps, second);
      assert done.Success?;
      BranchDone(a, b, c, State(), eps, first, second);
      return Success(eps);
    }
  }

  lemma EdgeElsewhere(b: Arrays, c: Arrays, from: int, to: int)
    requires EdgeMade(b, c, from, to)
    ensures forall m :: At(c, m) == At(b, m)
    ensures forall s :: s != from && FreeSlot(b.net, s) ==> FreeSlot(c.net, s)
  {}

  lemma MadeLinked(a: Arrays, b: Arrays, c: Arrays, d: Arrays, m1: int, m2: int, lo: int)
    requires SameBelow(a, b, lo) && SameBelow(b, c, b.net.last + 1) && SameBelow(c, d, lo) && 1 <= lo <= b.net.last
             && d.net.last == c.net.last
    requires IsAt(d, m1) && At(d, m1).lo == lo && At(d, m1).hi == c.net.last
    ensures Made(a, d, m1, lo, Accepts(d.net, At(d, m1)))
  {
    SameBelowTrans(a, b, c, lo, b.net.last + 1);
    SameBelowTrans(a, c, d, lo, lo);
  }

  lemma CopyStart(a: Arrays, m: int)
    requires IsAt(a, m)
    ensures Copying(a, a, At(a, m).lo, At(a, m).lo, a.net.last + 1 - At(a, m).lo)
  {}

  lemma CopyBounds(a: Arrays, b: Arrays, m: int, off: int)
    requires IsAt(a, m) && Copying(a, b, At(a, m).lo, At(a, m).hi + 1, off)
    ensures Fits(b) && 1 <= m + off <= b.net.last && At(b, m) == At(a, m) && m != m + off && m <= b.net.last
  {
    assert SameAt(a, b, m);
  }

  lemma RenamedNow(a: Arrays, b: Arrays, m: int, r: Mach)
    requires Fits(a) && 1 <= m <= a.net.last
    requires b == a.(firstst := a.firstst[m := r.lo], lastst := a.lastst[m := r.hi], finalst := a.finalst[m := r.final])
    ensures Renamed(a, b, m, r)
  {}

  lemma StateKeeps(a: Arrays, b: Arrays, sym: int, i: int)
    requires StateMade(a, b, sym) && 1 <= i <= a.net.last
    ensures b.net.last == a.net.last + 1 && b.net.tc[i] == a.net.tc[i] && b.net.t1[i] == a.net.t1[i]
            && b.net.t2[i] == a.net.t2[i] && b.accptnum[i] == a.accptnum[i]
  {
    assert SameAt(a, b, i);
  }

  lemma EdgeKeepsAt(a: Arrays, b: Arrays, from: int, to: int, i: int)
    requires EdgeMade(a, b, from, to) && 1 <= i <= a.net.last && i != from
    ensures b.net.tc[i] == a.net.tc[i] && b.net.t1[i] == a.net.t1[i] && b.net.t2[i] == a.net.t2[i]
            && b.accptnum[i] == a.accptnum[i]
    ensures b.finalst == a.finalst
  {}

  lemma FilledQuiet(b: Arrays, z: Arrays, z': Arrays, sym: int, x1: int, x2: int)
    requires Filled(b, z, sym, x1, x2) && z' == z.(accptnum := z.accptnum[z.net.last := 0])
    ensures Filled(b, z', sym, x1, x2)
  {
    assert z'.accptnum == z.accptnum;
  }
}
