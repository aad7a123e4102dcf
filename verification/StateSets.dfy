/** The sets of NFA states that make up DFA states (dfa.c: epsclosure, symfollowset). */
module StateSets {
  import opened Flexdef
  import opened Nets
  import opened Machines
  import opened Subsets
  import opened Closure
  import opened Patterns

  class StateSet {
    const lastnfa: int
    const transchar: seq<int>
    const trans2: seq<int>
    const accptnum: seq<int>
    const numRules: int
    const trans1: array<int>
    const accset: array<int>
    ghost const t0: seq<int>
    var nset: array<int>
    var stk: array<int>
    var currentMaxDfaSize: int

    /** The NFA, with trans1 as it is between the calls of epsclosure. */
    ghost function Nfa(): Net {
      Net(lastnfa, transchar, t0, trans2)
    }

    ghost predicate Shape() {
      && Sane(Nfa(), accptnum, numRules) && 0 <= numRules && accset.Length == numRules + 1 && trans1.Length == |t0|
      && trans1 != accset
    }

    ghost predicate Buffers()
      reads this
    {
      && Shape() && INITIAL_MAX_DFA_SIZE <= currentMaxDfaSize == nset.Length == stk.Length
      && nset != stk && nset != trans1 && nset != accset && stk != trans1 && stk != accset
    }

    ghost predicate Valid()
      reads this, trans1
    {
      Buffers() && trans1[..] == t0
    }

    lemma Known()
      requires Valid()
      ensures Shape() && Sane(Nfa(), accptnum, numRules)
      ensures Nfa().last == lastnfa && currentMaxDfaSize == nset.Length
    {
      hide Sane;
    }

    /** The lists kept in the arrays while epsclosure runs. */
    ghost predicate Running(k: seq<int>, t: seq<int>, accs: seq<int>)
      reads this, nset, stk, accset, trans1
    {
      && Buffers() && |k| < currentMaxDfaSize && |t| < currentMaxDfaSize && |accs| <= numRules
      && stk[1..|k| + 1] == k && nset[1..|t| + 1] == t && accset[1..|accs| + 1] == accs
      && Marked(t0, trans1[..], k) && Visited(Nfa(), accptnum, k, accs)
    }

    constructor (net: Net, accptnum: seq<int>, numRules: int)
      requires Sane(net, accptnum, numRules) && 0 <= numRules
      ensures Valid() && Nfa() == net && this.accptnum == accptnum && this.numRules == numRules
      ensures fresh(trans1) && fresh(accset) && fresh(nset) && fresh(stk)
    {
      lastnfa, transchar, trans2, this.accptnum, this.numRules := net.last, net.tc, net.t2, accptnum, numRules;
      t0 := net.t1;
      trans1 := new int[|net.t1|](i requires 0 <= i < |net.t1| => net.t1[i]);
      accset := new int[numRules + 1];
      nset := new int[INITIAL_MAX_DFA_SIZE];
      stk := new int[INITIAL_MAX_DFA_SIZE];
      currentMaxDfaSize := INITIAL_MAX_DFA_SIZE;
    }

    /** DO_REALLOCATION. */
    method Reallocate()
      requires Buffers()
      modifies this
      ensures Buffers() && fresh(nset) && fresh(stk)
              && currentMaxDfaSize == old(currentMaxDfaSize) + MAX_DFA_SIZE_INCREMENT
      ensures nset[..old(currentMaxDfaSize)] == old(nset[..]) && stk[..old(currentMaxDfaSize)] == old(stk[..])
    {
      var size := currentMaxDfaSize + MAX_DFA_SIZE_INCREMENT;
      var t, s := nset, stk;
      var t' := new int[size](i reads t => if 0 <= i < t.Length then t[i] else 0);
      var s' := new int[size](i reads s => if 0 <= i < s.Length then s[i] else 0);
      nset, stk, currentMaxDfaSize := t', s', size;
    }

    /** Room for one more element behind position n of the two buffers. */
    method Reserve(n: int, ghost k: seq<int>, ghost t: seq<int>, ghost accs: seq<int>)
      requires Running(k, t, accs) && 0 <= n < currentMaxDfaSize
      modifies this
      ensures Running(k, t, accs) && n + 1 < currentMaxDfaSize
      ensures (nset == old(nset) || fresh(nset)) && (stk == old(stk) || fresh(stk))
              && currentMaxDfaSize >= old(currentMaxDfaSize)
    {
      hide Sane, Visited, Marked;
      ghost var s0, n0 := stk[..], nset[..];
      if n + 1 >= currentMaxDfaSize {
        Reallocate();
        assert stk[1..|k| + 1] == stk[..|s0|][1..|k| + 1] == s0[1..|k| + 1];
        assert nset[1..|t| + 1] == nset[..|n0|][1..|t| + 1] == n0[1..|t| + 1];
      }
    }

    /** PUT_ON_STACK and CHECK_ACCEPT. */
    method Push(state: int, stkend: int, nacc: int, ghost k: seq<int>, ghost t: seq<int>, ghost accs: seq<int>)
      returns (stkend': int, nacc': int, nfaccnum: int)
      requires Running(k, t, accs) && stkend == |k| && nacc == |accs|
      requires 1 <= state <= lastnfa && state !in k
      modifies this, nset, stk, accset, trans1
      ensures stkend' == |k| + 1 && nfaccnum == accptnum[state]
      ensures var accs' := if nfaccnum != 0 then accs + [nfaccnum] else accs;
              nacc' == |accs'| && Running(k + [state], t, accs')
      ensures (nset == old(nset) || fresh(nset)) && (stk == old(stk) || fresh(stk))
              && currentMaxDfaSize >= old(currentMaxDfaSize)
    {
      hide Sane, Visited, Marked;
      SaneFacts(Nfa(), accptnum, numRules);
      Reserve(stkend, k, t, accs);
      stkend' := stkend + 1;
      stk[stkend'] := state;
      PushMark(Nfa(), accptnum, numRules, t0, trans1[..], k, accs, state);
      trans1[state] := trans1[state] - MARKER_DIFFERENCE;
      nfaccnum := accptnum[state];
      nacc' := nacc;
      if nfaccnum != 0 {
        nacc' := nacc' + 1;
        accset[nacc'] := nfaccnum;
      }
    }

    /** ADD_STATE, the list part. */
    method AddState(state: int, numstates: int, ghost k: seq<int>, ghost t: seq<int>, ghost accs: seq<int>)
      returns (numstates': int)
      requires Running(k, t, accs) && numstates == |t|
      modifies this, nset, stk
      ensures numstates' == |t| + 1 && Running(k, t + [state], accs)
      ensures (nset == old(nset) || fresh(nset)) && (stk == old(stk) || fresh(stk))
              && currentMaxDfaSize >= old(currentMaxDfaSize)
    {
      hide Sane, Visited, Marked;
      Reserve(numstates, k, t, accs);
      numstates' := numstates + 1;
      nset[numstates'] := state;
    }

    /** STACK_STATE: a state visited for the first time is stacked, and added to the list if it is significant. */
    method StackState(state: int, stkend: int, nacc: int, numstates: int, hashval: int,
                      ghost k: seq<int>, ghost t: seq<int>, ghost accs: seq<int>)
      returns (stkend': int, nacc': int, numstates': int, hashval': int, ghost accs': seq<int>)
      requires Running(k, t, accs) && stkend == |k| && nacc == |accs| && numstates == |t|
      requires 1 <= state <= lastnfa && state !in k
      modifies this, nset, stk, accset, trans1
      ensures var t' := if Significant(Nfa(), accptnum, state) then t + [state] else t;
              && Running(k + [state], t', accs') && stkend' == |k| + 1 && nacc' == |accs'| && numstates' == |t'|
              && hashval' == if Significant(Nfa(), accptnum, state) then hashval + state else hashval
      ensures (nset == old(nset) || fresh(nset)) && (stk == old(stk) || fresh(stk))
              && currentMaxDfaSize >= old(currentMaxDfaSize)
    {
      hide Sane, Visited, Marked;
      SaneFacts(Nfa(), accptnum, numRules);
      var nfaccnum;
      stkend', nacc', nfaccnum := Push(state, stkend, nacc, k, t, accs);
      accs' := if nfaccnum != 0 then accs + [nfaccnum] else accs;
      numstates', hashval' := numstates, hashval;
      if nfaccnum != 0 || transchar[state] != SYM_EPSILON {
        numstates' := AddState(state, numstates, k + [state], t, accs');
        hashval' := hashval + state;
      }
    }

    /** IS_MARKED tells whether a state has been visited. */
    lemma MarkTest(k: seq<int>, t: seq<int>, accs: seq<int>, s: int)
      requires Running(k, t, accs) && 1 <= s <= lastnfa
      ensures s < trans1.Length && (trans1[s] < 0 <==> s in k)
              && trans1[s] == (if s in k then t0[s] - MARKER_DIFFERENCE else t0[s])
      ensures s < |transchar| && s < |trans2|
    {}

    /** A successor tsp of the state at stack position p is stacked unless it has been visited. */
    method Visit(p: int, tsp: int, stkend: int, nacc: int, numstates: int, hashval: int, ghost start: seq<int>,
                 ghost k0: seq<int>, ghost k: seq<int>, ghost t: seq<int>, ghost accs: seq<int>)
      returns (stkend': int, nacc': int, numstates': int, hashval': int, ghost k': seq<int>, ghost t': seq<int>,
          ghost accs': seq<int>)
      requires Running(k, t, accs) && stkend == |k| && nacc == |accs| && numstates == |t| && 1 <= p <= stkend
      requires Spreading(Nfa(), accptnum, start, k0, k, p - 1, t, hashval)
      requires !Solid(Nfa(), k[p - 1]) && Edge(Nfa(), k[p - 1], tsp) && 1 <= tsp <= lastnfa
      modifies this, nset, stk, accset, trans1
      ensures Running(k', t', accs') && stkend' == |k'| && nacc' == |accs'| && numstates' == |t'|
      ensures Spreading(Nfa(), accptnum, start, k0, k', p - 1, t', hashval') && k <= k' && tsp in k'
      ensures (nset == old(nset) || fresh(nset)) && (stk == old(stk) || fresh(stk))
              && currentMaxDfaSize >= old(currentMaxDfaSize)
    {
      hide Sane, Visited, Marked, Spreading, Significant;
      stkend', nacc', numstates', hashval', k', t', accs' := stkend, nacc, numstates, hashval, k, t, accs;
      VisitedIn(Nfa(), accptnum, k, accs);
      MarkTest(k, t, accs, tsp);
      if !(trans1[tsp] < 0) {
        SpreadNew(Nfa(), accptnum, start, k0, k, p - 1, t, hashval, tsp);
        stkend', nacc', numstates', hashval', accs' := StackState(tsp, stkend, nacc, numstates, hashval, k, t, accs);
        k', t' := k + [tsp], if Significant(Nfa(), accptnum, tsp) then t + [tsp] else t;
      }
    }

    /** The loop body of epsclosure for stack position p: the successors of an epsilon state are visited. */
    method Spread(p: int, stkend: int, nacc: int, numstates: int, hashval: int, ghost start: seq<int>,
                  ghost k0: seq<int>, ghost k: seq<int>, ghost t: seq<int>, ghost accs: seq<int>)
      returns (stkend': int, nacc': int, numstates': int, hashval': int, ghost k': seq<int>, ghost t': seq<int>,
          ghost accs': seq<int>)
      requires Running(k, t, accs) && stkend == |k| && nacc == |accs| && numstates == |t| && 1 <= p <= stkend
      requires Spreading(Nfa(), accptnum, start, k0, k, p - 1, t, hashval)
      modifies this, nset, stk, accset, trans1
      ensures Running(k', t', accs') && stkend' == |k'| && nacc' == |accs'| && numstates' == |t'|
      ensures Spreading(Nfa(), accptnum, start, k0, k', p, t', hashval') && k <= k'
      ensures (nset == old(nset) || fresh(nset)) && (stk == old(stk) || fresh(stk))
              && currentMaxDfaSize >= old(currentMaxDfaSize)
    {
      hide Sane, Visited, Marked, Spreading, Significant;
      stkend', nacc', numstates', hashval', k', t', accs' := stkend, nacc, numstates, hashval, k, t, accs;
      var ns := stk[p];
      assert ns == stk[1..|k| + 1][p - 1];
      VisitedIn(Nfa(), accptnum, k, accs);
      assert ns == k[p - 1];
      MarkTest(k, t, accs, ns);
      Successors(Nfa(), accptnum, numRules, ns);
      if transchar[ns] == SYM_EPSILON {
        var tsp := trans1[ns] + MARKER_DIFFERENCE;
        if tsp != NO_TRANSITION {
          stkend', nacc', numstates', hashval', k', t',
              accs' := Visit(p, tsp, stkend, nacc, numstates, hashval, start, k0, k, t, accs);
          tsp := trans2[ns];
          if tsp != NO_TRANSITION {
            stkend', nacc', numstates', hashval', k', t', accs' :=
              Visit(p, tsp, stkend', nacc', numstates', hashval', start, k0, k', t', accs');
          }
        }
      }
      SpreadNext(Nfa(), accptnum, start, k0, k', p - 1, t', hashval');
    }

    lemma RunningFacts(k: seq<int>, t: seq<int>, accs: seq<int>)
      requires Running(k, t, accs)
      ensures Buffers() && |k| < currentMaxDfaSize && |t| < currentMaxDfaSize && |accs| <= numRules
              && Visited(Nfa(), accptnum, k, accs)
      ensures nset[1..|t| + 1] == t && accset[1..|accs| + 1] == accs && Sane(Nfa(), accptnum, numRules)
      ensures Sized(Nfa()) && lastnfa < |accptnum| && lastnfa >= 0
    {}

    /** The second loop of epsclosure: the epsilon transitions of every stacked state are followed. */
    method SpreadAll(stkend0: int, nacc0: int, numstates0: int, hashval0: int, ghost t: seq<int>, ghost k0: seq<int>,
                     ghost accs0: seq<int>)
      returns (stkend: int, nacc: int, numstates: int, hashval: int, ghost k: seq<int>, ghost cur: seq<int>,
          ghost accs: seq<int>)
      requires Running(k0, t, accs0) && stkend0 == |k0| && nacc0 == |accs0| && numstates0 == |t|
      requires Spreading(Nfa(), accptnum, t, k0, k0, 0, t, hashval0)
      modifies this, nset, stk, accset, trans1
      ensures Running(k, cur, accs) && stkend == |k| && nacc == |accs| && numstates == |cur|
      ensures Spreading(Nfa(), accptnum, t, k0, k, |k|, cur, hashval)
      ensures (nset == old(nset) || fresh(nset)) && (stk == old(stk) || fresh(stk))
              && currentMaxDfaSize >= old(currentMaxDfaSize)
    {
      hide Sane, Visited, Marked, Spreading, Seeding, Significant, SumIn, Running;
      stkend, nacc, numstates, hashval, k, cur, accs := stkend0, nacc0, numstates0, hashval0, k0, t, accs0;
      var stkpos := 1;
      while stkpos <= stkend
        invariant 1 <= stkpos <= stkend + 1 && stkend == |k| && nacc == |accs| && numstates == |cur|
        invariant Running(k, cur, accs) && Spreading(Nfa(), accptnum, t, k0, k, stkpos - 1, cur, hashval)
        invariant (nset == old(nset) || fresh(nset)) && (stk == old(stk) || fresh(stk))
                  && currentMaxDfaSize >= old(currentMaxDfaSize)
        decreases lastnfa - stkpos
      {
        stkend, nacc, numstates, hashval, k, cur, accs := Spread(stkpos, stkend, nacc, numstates,
            hashval, t, k0, k, cur, accs);
        RunningFacts(k, cur, accs);
        VisitedSize(Nfa(), accptnum, k, accs);
        stkpos := stkpos + 1;
      }
    }

    /** epsclosure: the list t in nset becomes the target of t, accset gets the accepting numbers of its members,
        hashval the sum of its distinct members, and trans1 is as before. */
    method EpsClosure(numstates0: int, ghost t: seq<int>) returns (numstates: int, nacc: int, hashval: int)
      requires Valid() && 0 <= numstates0 == |t| < currentMaxDfaSize && nset[1..numstates0 + 1] == t && InNet(Nfa(), t)
      modifies this, nset, stk, accset, trans1
      ensures Valid() && (nset == old(nset) || fresh(nset)) && (stk == old(stk) || fresh(stk))
              && currentMaxDfaSize >= old(currentMaxDfaSize)
      ensures 0 <= numstates < currentMaxDfaSize && 0 <= nacc <= numRules
      ensures multiset(nset[1..numstates + 1]) == ClosureOf(Nfa(), accptnum, t) && InNet(Nfa(), nset[1..numstates + 1])
      ensures hashval == SumIn(Members(nset[1..numstates + 1]), lastnfa)
      ensures AccsOf(accptnum, nset[1..numstates + 1], accset[1..nacc + 1])
    {
      hide Sane, Visited, Marked, Spreading, Seeding, Significant, SumIn, ClosureOf, AccsOf, Running;
      numstates := numstates0;
      var stkend: int;
      ghost var k, accs;
      stkend, nacc, hashval, k, accs := Seed(numstates, t);
      RunningFacts(k, t, accs);
      VisitedIn(Nfa(), accptnum, k, accs);
      SpreadStart(Nfa(), accptnum, t, k, hashval);
      ghost var k0, cur := k, t;
      stkend, nacc, numstates, hashval, k, cur, accs := SpreadAll(stkend, nacc, numstates, hashval, t, k0, accs);
      RunningFacts(k, cur, accs);
      SpreadDone(Nfa(), accptnum, t, k0, k, cur, hashval, accs);
      AccsOfIs(accptnum, cur, accs);
      Unmark(stkend, k, cur, accs);
    }

    /** The first loop of epsclosure: the states given are stacked, each once. */
    method Seed(numstates: int, ghost t: seq<int>)
      returns (stkend: int, nacc: int, hashval: int, ghost k: seq<int>, ghost accs: seq<int>)
      requires Valid() && 0 <= numstates == |t| < currentMaxDfaSize && nset[1..numstates + 1] == t && InNet(Nfa(), t)
      modifies this, nset, stk, accset, trans1
      ensures Running(k, t, accs) && stkend == |k| && nacc == |accs| && Seeding(Nfa(), t, |t|, k, hashval)
      ensures (nset == old(nset) || fresh(nset)) && (stk == old(stk) || fresh(stk))
              && currentMaxDfaSize >= old(currentMaxDfaSize)
    {
      hide Sane, Seeding, Visited, Marked;
      SaneFacts(Nfa(), accptnum, numRules);
      nacc, stkend, hashval, k, accs := 0, 0, 0, [], [];
      SeedStart(Nfa(), t);
      NothingMarked(Nfa(), accptnum, t0);
      var nstate := 1;
      while nstate <= numstates
        invariant 1 <= nstate <= numstates + 1 && stkend == |k| && nacc == |accs|
        invariant Running(k, t, accs) && Seeding(Nfa(), t, nstate - 1, k, hashval)
        invariant (nset == old(nset) || fresh(nset)) && (stk == old(stk) || fresh(stk))
                  && currentMaxDfaSize >= old(currentMaxDfaSize)
      {
        var ns := nset[nstate];
        assert ns == nset[1..|t| + 1][nstate - 1];
        assert ns == t[nstate - 1];
        MarkTest(k, t, accs, ns);
        if !(trans1[ns] < 0) {
          SeedNew(Nfa(), t, nstate - 1, k, hashval);
          var nfaccnum;
          ghost var accs0 := accs;
          stkend, nacc, nfaccnum := Push(ns, stkend, nacc, k, t, accs0);
          accs := if nfaccnum != 0 then accs0 + [nfaccnum] else accs0;
          k := k + [ns];
          hashval := hashval + ns;
        } else {
          SeedOld(Nfa(), t, nstate - 1, k, hashval);
        }
        nstate := nstate + 1;
      }
    }

    /** The last loop of epsclosure: all marks are cleared. Every stacked state is marked, so the consistency check
        never fails. */
    method Unmark(stkend: int, ghost k: seq<int>, ghost t: seq<int>, ghost accs: seq<int>)
      requires Running(k, t, accs) && stkend == |k|
      modifies trans1
      ensures Valid()
    {
      hide Sane, Visited;
      VisitedIn(Nfa(), accptnum, k, accs);
      SaneFacts(Nfa(), accptnum, numRules);
      ghost var st := stk[1..|k| + 1];
      var stkpos := 1;
      assert k[0..] == k;
      while stkpos <= stkend
        invariant 1 <= stkpos <= stkend + 1 && Marked(t0, trans1[..], k[stkpos - 1..])
      {
        assert stk[stkpos] == st[stkpos - 1] == k[stkpos - 1];
        assert k[stkpos - 1..] == [k[stkpos - 1]] + k[stkpos..];
        assert k[stkpos - 1] !in k[stkpos..];
        SmallerThanMark(Nfa(), accptnum, numRules, stk[stkpos]);
        assert trans1[stk[stkpos]] == trans1[..][stk[stkpos]] < 0;
        trans1[stk[stkpos]] := trans1[stk[stkpos]] + MARKER_DIFFERENCE;
        stkpos := stkpos + 1;
      }
      assert k[stkend..] == [];
    }
  }

  lemma NothingMarked(n: Net, acc: seq<int>, t0: seq<int>)
    ensures Marked(t0, t0, []) && Visited(n, acc, [], [])
  {}

  lemma SmallerThanMark(n: Net, acc: seq<int>, numRules: int, s: int)
    requires Sane(n, acc, numRules) && 1 <= s <= n.last
    ensures s < |n.t1| && 0 <= n.t1[s] < MARKER_DIFFERENCE
  {}

  /** accs lists the accepting numbers of the members of d. */
  ghost predicate AccsOf(acc: seq<int>, d: seq<int>, accs: seq<int>) {
    forall a :: a in accs <==> AccIn(acc, d, a)
  }

  ghost predicate AccIn(acc: seq<int>, d: seq<int>, a: int) {
    exists s :: s in d && 0 <= s < |acc| && acc[s] == a && a != 0
  }

  lemma AccsOfIs(acc: seq<int>, d: seq<int>, accs: seq<int>)
    requires forall a :: a in accs <==> exists s :: s in d && 0 <= s < |acc| && acc[s] == a && a != 0
    ensures AccsOf(acc, d, accs)
  {}

  lemma VisitedIn(n: Net, acc: seq<int>, k: seq<int>, accs: seq<int>)
    requires Visited(n, acc, k, accs)
    ensures Distinct(k) && InNet(n, k) && forall i :: 0 <= i < |k| ==> 1 <= k[i] <= n.last
  {}

  /** The successors of an epsilon state, as epsclosure looks them up. */
  lemma Successors(n: Net, acc: seq<int>, numRules: int, s: int)
    requires Sane(n, acc, numRules) && 1 <= s <= n.last
    ensures s < |n.t1| && s < |n.t2| && s < |n.tc|
    ensures n.t1[s] == 0 || 1 <= n.t1[s] <= n.last
    ensures n.t2[s] == 0 || 1 <= n.t2[s] <= n.last
    ensures n.t1[s] == 0 ==> n.t2[s] == 0
    ensures forall b :: Edge(n, s, b) <==> b != 0 && (n.t1[s] == b || n.t2[s] == b)
    ensures Solid(n, s) <==> n.tc[s] != SYM_EPSILON
  {}

  lemma SaneFacts(n: Net, acc: seq<int>, numRules: int)
    requires Sane(n, acc, numRules)
    ensures 0 <= n.last < |acc| && n.last < |n.t1| && n.last < |n.t2| && n.last < |n.tc|
  {}

  lemma PushMark(n: Net, acc: seq<int>, numRules: int, t0: seq<int>, tr: seq<int>, k: seq<int>, accs: seq<int>, s: int)
    requires Sane(n, acc, numRules) && 0 <= numRules && n.t1 == t0 && Marked(t0, tr, k) && Visited(n, acc, k, accs)
    requires 1 <= s <= n.last && s !in k
    ensures s < |tr| && s < |acc| && Marked(t0, tr[s := tr[s] - MARKER_DIFFERENCE], k + [s])
    ensures var accs' := if acc[s] != 0 then accs + [acc[s]] else accs;
            Visited(n, acc, k + [s], accs') && |accs'| <= numRules
  {
    VisitedMore(n, acc, k, accs, s);
    AccsSize(n, acc, k + [s], numRules);
    forall x ensures x in k + [s] <==> x in k || x == s {}
  }
}
