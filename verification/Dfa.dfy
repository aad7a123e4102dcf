/** The subset construction (dfa.c: snstods and the worklist of ntod), feeding the table compression row by row. */
module Dfa {
  import opened Flexdef
  import opened Results
  import opened Nets
  import opened Machines
  import opened Regex
  import opened Subsets
  import opened Closure
  import opened StateSets
  import opened Partition
  import opened Interning
  import opened Sorting
  import opened Compression
  import opened Packing
  import Ecs

  // ----- the recorded DFA states

  /** The record of one DFA state: a sorted list, its hash value and its accepting number. */
  ghost predicate RecordOk(n: Net, acc: seq<int>, d: seq<int>, hash: int, accept: int) {
    && Ordered(d, 0, |d|, false) && Bounded(n, d) && n.last >= 0
    && hash == SumIn(Members(d), n.last) && Lowest(acc, d, accept)
  }

  /** All records, pairwise different. */
  ghost predicate Interned(n: Net, acc: seq<int>, dss: seq<seq<int>>, dfasiz: seq<int>, dhash: seq<int>,
                           dfaacc: seq<int>) {
    && |dss| == |dfasiz| == |dhash| == |dfaacc| >= 1
    && (forall i :: 1 <= i < |dss| ==> dfasiz[i] == |dss[i]| && RecordOk(n, acc, dss[i], dhash[i], dfaacc[i]))
    && (forall i, j :: 1 <= i < j < |dss| ==> dss[i] != dss[j])
  }

  /** None of the records below i is the list l. */
  ghost predicate NoneBelow(dss: seq<seq<int>>, i: int, l: multiset<int>) {
    forall k :: 1 <= k < i && k < |dss| ==> multiset(dss[k]) != l
  }

  /** Record i differs already in its hash value or its size. */
  lemma DifferentHash(n: Net, acc: seq<int>, dss: seq<seq<int>>, dfasiz: seq<int>, dhash: seq<int>, dfaacc: seq<int>,
                      i: int, l: seq<int>, hash: int)
    requires Interned(n, acc, dss, dfasiz, dhash, dfaacc) && 1 <= i < |dss| && n.last >= 0
             && hash == SumIn(Members(l), n.last)
    requires NoneBelow(dss, i, multiset(l)) && (hash != dhash[i] || |l| != dfasiz[i])
    ensures NoneBelow(dss, i + 1, multiset(l))
  {
    assert RecordOk(n, acc, dss[i], dhash[i], dfaacc[i]);
    if multiset(dss[i]) == multiset(l) {
      SameSize(dss[i], l);
      SameMembers(dss[i], l);
    }
  }

  lemma SameMembers(a: seq<int>, b: seq<int>)
    requires multiset(a) == multiset(b)
    ensures Members(a) == Members(b) && forall x :: x in a <==> x in b
  {
    forall x ensures x in a <==> x in b {
      assert x in a <==> x in multiset(a);
      assert x in b <==> x in multiset(b);
    }
  }

  /** Record i has been compared with the sorted list. */
  lemma Compared(n: Net, acc: seq<int>, dss: seq<seq<int>>, dfasiz: seq<int>, dhash: seq<int>, dfaacc: seq<int>, i: int,
                 l: seq<int>)
    requires Interned(n, acc, dss, dfasiz, dhash, dfaacc) && 1 <= i < |dss| && Ordered(l, 0, |l|, false)
    requires NoneBelow(dss, i, multiset(l))
    ensures dss[i] != l ==> NoneBelow(dss, i + 1, multiset(l))
  {
    assert RecordOk(n, acc, dss[i], dhash[i], dfaacc[i]);
    if multiset(dss[i]) == multiset(l) { SortedUnique(dss[i], l); }
  }

  lemma InternedMore(n: Net, acc: seq<int>, dss: seq<seq<int>>, dfasiz: seq<int>, dhash: seq<int>, dfaacc: seq<int>,
                     d: seq<int>, hash: int, accept: int)
    requires Interned(n, acc, dss, dfasiz, dhash, dfaacc) && RecordOk(n, acc, d, hash, accept)
    requires NoneBelow(dss, |dss|, multiset(d))
    ensures Interned(n, acc, dss + [d], dfasiz + [|d|], dhash + [hash], dfaacc + [accept])
  {
    forall i | 1 <= i < |dss| ensures dss[i] != d { assert multiset(dss[i]) != multiset(d); }
  }

  /** The list l sorted into d is a record. */
  lemma Recorded(n: Net, acc: seq<int>, l: seq<int>, d: seq<int>, hash: int, accept: int)
    requires multiset(d) == multiset(l) && Ordered(d, 0, |d|, false) && Bounded(n, l) && n.last >= 0
    requires hash == SumIn(Members(l), n.last) && Lowest(acc, l, accept)
    ensures RecordOk(n, acc, d, hash, accept)
  {
    SameMembers(d, l);
    SameSize(d, l);
    forall i | 0 <= i < |d| ensures 1 <= d[i] <= n.last {
      assert d[i] in l;
    }
    forall a ensures AccIn(acc, d, a) <==> AccIn(acc, l, a) {}
  }

  // ----- the row of a DFA state

  /** v is the right target of a state with record d on class e: 0 if nothing follows, else the DFA state
      whose record is the closure of what follows. */
  ghost predicate RowAt(n: Net, acc: seq<int>, num: seq<int>, cls: seq<ClassInfo>, dss: seq<seq<int>>, d: seq<int>,
                        e: int, v: int) {
    var f := Follow(n, num, cls, d, e);
    if f == [] then v == 0 else 1 <= v < |dss| && multiset(dss[v]) == ClosureOf(n, acc, f)
  }

  ghost predicate RowOk(n: Net, acc: seq<int>, num: seq<int>, cls: seq<ClassInfo>, dss: seq<seq<int>>, d: seq<int>,
                        row: seq<int>, numecs: int) {
    |row| > numecs && forall e :: 1 <= e <= numecs ==> RowAt(n, acc, num, cls, dss, d, e, row[e])
  }

  // ----- every state is reached

  /** The states from n to n' are targets of the row, on classes up to sym. */
  ghost predicate FreshIn(n: int, n': int, row: seq<int>, sym: int) {
    n <= n' && forall i :: n <= i < n' ==> TargetIn(row, i, sym)
  }

  ghost predicate TargetIn(row: seq<int>, i: int, sym: int) {
    exists c :: 1 <= c <= sym && c < |row| && row[c] == i
  }

  /** Only the target on sym has changed; if there is a new state, it is that target. */
  ghost predicate OneFresh(n: int, n': int, before: seq<int>, after: seq<int>, sym: int) {
    && n <= n' <= n + 1 && |after| == |before| && 1 <= sym < |after| && (n' == n + 1 ==> after[sym] == n)
    && forall c :: 0 <= c < |after| && c != sym ==> after[c] == before[c]
  }

  lemma FreshNone(n: int, row: seq<int>)
    ensures FreshIn(n, n, row, 0)
  {}

  lemma FreshMore(n: int, m: int, m': int, before: seq<int>, after: seq<int>, sym: int)
    requires FreshIn(n, m, before, sym - 1) && OneFresh(m, m', before, after, sym)
    ensures FreshIn(n, m', after, sym)
  {
    forall i | n <= i < m' ensures TargetIn(after, i, sym) {
      if i < m {
        assert TargetIn(before, i, sym - 1);
        var c :| 1 <= c <= sym - 1 && c < |before| && before[c] == i;
        assert after[c] == i;
      } else {
        assert after[sym] == i;
      }
    }
  }

  /** State i is the target of the row of an earlier state. */
  ghost predicate LedTo(rows: seq<seq<int>>, i: int, numecs: int) {
    exists s :: 0 <= s < |rows| && s + 1 < i && TargetIn(rows[s], i, numecs)
  }

  /** All states up to count but the start states, those below first, and the end-of-buffer state are targets. */
  ghost predicate AllLedTo(rows: seq<seq<int>>, first: int, eob: int, count: int, numecs: int) {
    forall i :: first <= i < count && i != eob ==> LedTo(rows, i, numecs)
  }

  /** The row has been entered behind the others; other than on the classes nothing is said about it. */
  ghost predicate RowEntered(before: seq<seq<int>>, after: seq<seq<int>>, row: seq<int>, numecs: int) {
    && |after| == |before| + 1 && before <= after && |after[|before|]| > numecs && |row| > numecs
    && forall c :: 1 <= c <= numecs ==> after[|before|][c] == row[c]
  }

  /** The rows for which a template may have been made. */
  ghost function WideRows(rows: seq<seq<int>>, numecs: nat): nat {
    if rows == [] then 0
    else WideRows(rows[..|rows| - 1], numecs) + if WideRow(rows[|rows| - 1], numecs) then 1 else 0
  }

  ghost predicate WideRow(row: seq<int>, numecs: nat) {
    numecs < |row| && Worth(|Nonzero(row, numecs)|, numecs)
  }

  lemma NoneWide(numecs: nat)
    ensures WideRows([], numecs) == 0
  {}

  lemma WideMore(rows: seq<seq<int>>, row: seq<int>, numecs: nat)
    ensures WideRows(rows + [row], numecs) == WideRows(rows, numecs) + if WideRow(row, numecs) then 1 else 0
  {
    assert (rows + [row])[..|rows|] == rows;
  }

  lemma WideNow(row: seq<int>, numecs: nat, total: int)
    requires numecs < |row| && total == |Nonzero(row, numecs)|
    ensures WideRow(row, numecs) <==> Worth(total, numecs)
  {}

  lemma LastLeft(row: seq<int>, rows: seq<seq<int>>, temps: seq<seq<int>>, numecs: nat)
    requires Misled(row, rows, temps, numecs)
    ensures |temps| + 1 == -JAMSTATE
  {}

  lemma EnteredNow(rows: seq<seq<int>>, row: seq<int>, numecs: int)
    requires |row| > numecs
    ensures RowEntered(rows, rows + [row], row, numecs)
  {}

  /** What lies behind the classes does not matter. */
  lemma FreshHere(n: int, n': int, row: seq<int>, numecs: nat)
    requires FreshIn(n, n', row, numecs) && numecs < |row|
    ensures FreshIn(n, n', row[..numecs + 1], numecs)
  {
    var here := row[..numecs + 1];
    forall i | n <= i < n' ensures TargetIn(here, i, numecs) {
      assert TargetIn(row, i, numecs);
      var c :| 1 <= c <= numecs && c < |row| && row[c] == i;
      assert here[c] == i;
    }
  }

  lemma LedMore(rows: seq<seq<int>>, rows': seq<seq<int>>, row: seq<int>, first: int, eob: int, n: int, n': int,
                numecs: int)
    requires AllLedTo(rows, first, eob, n, numecs) && FreshIn(n, n', row, numecs)
             && RowEntered(rows, rows', row, numecs)
    requires |rows'| < n
    ensures AllLedTo(rows', first, eob, n', numecs)
  {
    forall i | first <= i < n' && i != eob ensures LedTo(rows', i, numecs) {
      if i < n {
        assert LedTo(rows, i, numecs);
        var s :| 0 <= s < |rows| && s + 1 < i && TargetIn(rows[s], i, numecs);
        assert rows'[s] == rows[s];
      } else {
        assert TargetIn(row, i, numecs);
        var c :| 1 <= c <= numecs && c < |row| && row[c] == i;
        assert rows'[|rows|][c] == i;
      }
    }
  }

  lemma NoneLed(first: int, eob: int, count: int, numecs: int)
    requires count <= first || (count == first + 1 && eob == first)
    ensures AllLedTo([], first, eob, count, numecs)
  {}

  /** The rows made so far belong to the first DFA states. */
  ghost predicate RowsOk(n: Net, acc: seq<int>, num: seq<int>, cls: seq<ClassInfo>, dss: seq<seq<int>>,
                         rows: seq<seq<int>>, numecs: int) {
    |rows| < |dss| && forall s :: 0 <= s < |rows| ==> RowOk(n, acc, num, cls, dss, dss[s + 1], rows[s], numecs)
  }

  /** New records do not disturb a row. */
  lemma RowKept(n: Net, acc: seq<int>, num: seq<int>, cls: seq<ClassInfo>, dss: seq<seq<int>>, dss': seq<seq<int>>,
                d: seq<int>, row: seq<int>, numecs: int)
    requires RowOk(n, acc, num, cls, dss, d, row, numecs) && dss <= dss'
    ensures RowOk(n, acc, num, cls, dss', d, row, numecs)
  {
    forall e | 1 <= e <= numecs ensures RowAt(n, acc, num, cls, dss', d, e, row[e]) {
      assert RowAt(n, acc, num, cls, dss, d, e, row[e]);
    }
  }

  lemma RowsKept(n: Net, acc: seq<int>, num: seq<int>, cls: seq<ClassInfo>, dss: seq<seq<int>>, dss': seq<seq<int>>,
                 rows: seq<seq<int>>, numecs: int)
    requires RowsOk(n, acc, num, cls, dss, rows, numecs) && dss <= dss'
    ensures RowsOk(n, acc, num, cls, dss', rows, numecs)
  {
    forall s | 0 <= s < |rows| ensures RowOk(n, acc, num, cls, dss', dss'[s + 1], rows[s], numecs) {
      RowKept(n, acc, num, cls, dss, dss', dss[s + 1], rows[s], numecs);
    }
  }

  /** The links that sympartition leaves: backwards, to a symbol with the same follow set. */
  ghost predicate DupOk(n: Net, num: seq<int>, cls: seq<ClassInfo>, d: seq<int>, dup: seq<int>, numecs: int) {
    |dup| > numecs && forall e :: 1 <= e <= numecs ==>
      0 <= dup[e] < e && (dup[e] != 0 ==> Follow(n, num, cls, d, dup[e]) == Follow(n, num, cls, d, e))
  }

  /** The classes below sym are done: state has their targets, targstate lists these, and symlist is cleared. */
  ghost predicate Swept(n: Net, acc: seq<int>, num: seq<int>, cls: seq<ClassInfo>, dss: seq<seq<int>>, d: seq<int>,
                        state: seq<int>, symlist: seq<int>, dup: seq<int>, dup0: seq<int>, targstate: seq<int>,
                        targfreq: seq<int>, targptr: int, total: int, sym: int, numecs: int)
  {
    && |state| == |symlist| == |dup| == |dup0| == |targstate| == |targfreq| == CSIZE + 1
       && 1 <= sym <= numecs + 1 <= CSIZE + 1
    && (forall e :: 1 <= e < sym ==> RowAt(n, acc, num, cls, dss, d, e, state[e]) && symlist[e] == 0)
    && (forall e :: sym <= e <= numecs ==> state[e] == 0 && dup[e] == dup0[e]
                                           && (symlist[e] != 0 <==> Follow(n, num, cls, d, e) != []))
    && total == |Targets(state, sym)| && 0 <= targptr < sym
    && (forall e :: 1 <= e < sym && state[e] != 0 ==> state[e] in targstate[1..targptr + 1])
    && (forall i :: 1 <= i <= targptr ==> targfreq[i] >= 1 && 1 <= targstate[i] < |dss|
                                          && Frequent(state, sym, targstate[i], targfreq[i]))
  }

  /** v is the target of a class below sym. */
  ghost predicate Reached(state: seq<int>, sym: int, v: int) {
    exists e :: 1 <= e < sym && e < |state| && state[e] == v
  }

  /** v is the target of a class below sym, and, with a frequency of more than one, of two. */
  ghost predicate Frequent(state: seq<int>, sym: int, v: int, freq: int) {
    && Reached(state, sym, v)
    && (freq > 1 ==> exists e, f :: 1 <= e < f < sym && f < |state| && state[e] == v && state[f] == v)
  }

  lemma FrequentMore(state: seq<int>, sym: int, x: int, v: int, freq: int)
    requires 1 <= sym < |state| && Frequent(state, sym, v, freq)
    ensures Frequent(state[sym := x], sym + 1, v, freq)
    ensures x == v ==> Frequent(state[sym := x], sym + 1, v, freq + 1)
  {
    var state' := state[sym := x];
    var e :| 1 <= e < sym && e < |state| && state[e] == v;
    assert state'[e] == v;
    if freq > 1 {
      var k, f :| 1 <= k < f < sym && f < |state| && state[k] == v && state[f] == v;
      assert state'[k] == v && state'[f] == v;
    }
    if x == v { assert state'[sym] == v; }
  }

  lemma AllFrequent(state: seq<int>, sym: int, x: int, targstate: seq<int>, targfreq: seq<int>, n: int)
    requires 1 <= sym < |state| && n < |targstate| == |targfreq|
    requires forall i :: 1 <= i <= n ==> Frequent(state, sym, targstate[i], targfreq[i])
    ensures forall i :: 1 <= i <= n ==> Frequent(state[sym := x], sym + 1, targstate[i], targfreq[i])
    ensures forall i :: 1 <= i <= n && targstate[i] == x
              ==> Frequent(state[sym := x], sym + 1, targstate[i], targfreq[i] + 1)
    ensures Frequent(state[sym := x], sym + 1, x, 1)
  {
    assert state[sym := x][sym] == x;
    forall i | 1 <= i <= n
      ensures Frequent(state[sym := x], sym + 1, targstate[i], targfreq[i])
      ensures targstate[i] == x ==> Frequent(state[sym := x], sym + 1, targstate[i], targfreq[i] + 1)
    {
      FrequentMore(state, sym, x, targstate[i], targfreq[i]);
    }
  }

  /** The classes below sym with a target. */
  ghost function Targets(state: seq<int>, sym: int): set<int> {
    set e | 1 <= e < sym && e < |state| && state[e] != 0
  }

  lemma TargetsMore(state: seq<int>, state': seq<int>, sym: int)
    requires 1 <= sym < |state| == |state'| && forall e :: 1 <= e < sym ==> state'[e] == state[e]
    ensures |Targets(state', sym + 1)| == |Targets(state, sym)| + if state'[sym] != 0 then 1 else 0
  {
    assert Targets(state', sym + 1) == Targets(state, sym) + if state'[sym] != 0 then {sym} else {};
  }

  /** A symbol that leads nowhere. */
  lemma SweepNothing(n: Net, acc: seq<int>, num: seq<int>, cls: seq<ClassInfo>, dss: seq<seq<int>>, d: seq<int>,
                     state: seq<int>, symlist: seq<int>, dup: seq<int>, dup0: seq<int>, targstate: seq<int>,
                     targfreq: seq<int>, targptr: int, total: int, sym: int, numecs: int)
    requires Swept(n, acc, num, cls, dss, d, state, symlist, dup, dup0, targstate, targfreq, targptr,
             total, sym, numecs)
    requires sym <= numecs && symlist[sym] == 0
    ensures Swept(n, acc, num, cls, dss, d, state, symlist, dup, dup0, targstate, targfreq, targptr,
            total, sym + 1, numecs)
  {
    TargetsMore(state, state, sym);
    AllFrequent(state, sym, state[sym], targstate, targfreq, targptr);
    assert state[sym := state[sym]] == state;
  }

  /** A symbol with a target of its own. */
  lemma SweepNew(n: Net, acc: seq<int>, num: seq<int>, cls: seq<ClassInfo>, dss: seq<seq<int>>, dss': seq<seq<int>>,
                 d: seq<int>, state: seq<int>, symlist: seq<int>, dup: seq<int>, dup0: seq<int>, targstate: seq<int>,
                 targfreq: seq<int>, targptr: int, total: int, sym: int, numecs: int, newds: int)
    requires Swept(n, acc, num, cls, dss, d, state, symlist, dup, dup0, targstate, targfreq, targptr,
             total, sym, numecs)
    requires sym <= numecs && symlist[sym] != 0 && dss <= dss' && 1 <= newds < |dss'|
    requires multiset(dss'[newds]) == ClosureOf(n, acc, Follow(n, num, cls, d, sym))
    ensures Swept(n, acc, num, cls, dss', d, state[sym := newds], symlist[sym := 0], dup[sym := 0], dup0,
                  targstate[targptr + 1 := newds], targfreq[targptr + 1 := 1], targptr + 1, total + 1, sym + 1, numecs)
  {
    hide Follow, ClosureOf, Frequent;
    var state', targ' := state[sym := newds], targstate[targptr + 1 := newds];
    TargetsMore(state, state', sym);
    AllFrequent(state, sym, newds, targstate, targfreq, targptr);
    forall e | 1 <= e < sym + 1
      ensures RowAt(n, acc, num, cls, dss', d, e, state'[e])
      ensures state'[e] != 0 ==> state'[e] in targ'[1..targptr + 2]
    {
      if e < sym {
        assert RowAt(n, acc, num, cls, dss, d, e, state[e]);
        if state[e] != 0 {
          var i :| 0 <= i < targptr && targstate[1..targptr + 1][i] == state[e];
          assert targ'[1..targptr + 2][i] == state[e];
        }
      } else {
        assert targ'[1..targptr + 2][targptr] == newds;
      }
    }
  }

  /** A symbol with the target of an earlier one. */
  lemma SweepDup(n: Net, acc: seq<int>, num: seq<int>, cls: seq<ClassInfo>, dss: seq<seq<int>>, d: seq<int>,
                 state: seq<int>, symlist: seq<int>, dup: seq<int>, dup0: seq<int>, targstate: seq<int>,
                 targfreq: seq<int>, targptr: int, total: int, sym: int, numecs: int, i: int)
    requires Swept(n, acc, num, cls, dss, d, state, symlist, dup, dup0, targstate, targfreq, targptr,
             total, sym, numecs)
    requires DupOk(n, num, cls, d, dup0, numecs) && sym <= numecs && symlist[sym] != 0 && dup[sym] != 0
             && 1 <= i <= targptr && targstate[i] == state[dup[sym]]
    ensures 1 <= dup[sym] < sym
    ensures Swept(n, acc, num, cls, dss, d, state[sym := state[dup[sym]]], symlist[sym := 0], dup[sym := 0], dup0,
                  targstate, targfreq[i := targfreq[i] + 1], targptr, total + 1, sym + 1, numecs)
  {
    hide Follow, ClosureOf, Frequent;
    var e0 := dup[sym];
    assert RowAt(n, acc, num, cls, dss, d, e0, state[e0]);
    TargetsMore(state, state[sym := state[e0]], sym);
    AllFrequent(state, sym, state[e0], targstate, targfreq, targptr);
  }

  /** The target of the earlier symbol is found among the targets. */
  lemma DupTarget(n: Net, acc: seq<int>, num: seq<int>, cls: seq<ClassInfo>, dss: seq<seq<int>>, d: seq<int>,
                  state: seq<int>, symlist: seq<int>, dup: seq<int>, dup0: seq<int>, targstate: seq<int>,
                  targfreq: seq<int>, targptr: int, total: int, sym: int, numecs: int)
    requires Swept(n, acc, num, cls, dss, d, state, symlist, dup, dup0, targstate, targfreq, targptr,
             total, sym, numecs)
    requires DupOk(n, num, cls, d, dup0, numecs) && sym <= numecs && symlist[sym] != 0 && dup[sym] != 0
    ensures 1 <= dup[sym] < sym && targptr < CSIZE && exists i :: 1 <= i <= targptr && targstate[i] == state[dup[sym]]
  {
    var e0 := dup[sym];
    assert RowAt(n, acc, num, cls, dss, d, e0, state[e0]);
    var i :| 0 <= i < targptr && targstate[1..targptr + 1][i] == state[e0];
    assert targstate[1 + i] == state[e0];
  }

  lemma SweptSizes(n: Net, acc: seq<int>, num: seq<int>, cls: seq<ClassInfo>, dss: seq<seq<int>>, d: seq<int>,
                   state: seq<int>, symlist: seq<int>, dup: seq<int>, dup0: seq<int>, targstate: seq<int>,
                   targfreq: seq<int>, targptr: int, total: int, sym: int, numecs: int)
    requires Swept(n, acc, num, cls, dss, d, state, symlist, dup, dup0, targstate, targfreq, targptr,
             total, sym, numecs)
    ensures 0 <= targptr < sym <= numecs + 1 <= CSIZE + 1 && |state| == |symlist| == |dup| == CSIZE + 1
    ensures sym <= numecs ==> dup[sym] == dup0[sym]
  {}

  /** The rows so far, and the table of the transitions on NUL. */
  class RowsMade {
    var nultrans: seq<int>
    ghost var rows: seq<seq<int>>

    constructor ()
      ensures nultrans == [0] && rows == []
    {
      nultrans, rows := [0], [];
    }
  }

  class DfaBuilder {
    const sets: StateSet
    const syms: Symbols
    const comp: Compressor
    const symlist: array<int>
    const duplist: array<int>
    const state: array<int>
    const targfreq: array<int>
    const targstate: array<int>
    ghost const num: seq<int>
    ghost const cls: seq<ClassInfo>
    const fullspd: bool          // the rows are meant for a full-speed scanner
    const useNul: bool           // transitions on NUL have a table of their own
    const made: RowsMade
    var lastdfa: int
    var dss: seq<seq<int>>
    var dfasiz: seq<int>
    var dhash: seq<int>
    var dfaacc: seq<int>

    ghost function Nfa(): Net {
      sets.Nfa()
    }

    /** What nfa.c guarantees, and what the class numbers mean. */
    ghost predicate NfaFine() {
      && Closed(Nfa(), 1, Nfa().last) && Tidy(Nfa(), 1, Nfa().last) && Lone(Nfa(), 1, Nfa().last)
         && Onward(Nfa(), 1, Nfa().last, 0, 0)
      && LabelsOk(Nfa(), num, |cls|, syms.csize, syms.numecs)
      && (useNul ==> syms.nulEc == syms.numecs == syms.csize >= 128) && (syms.numecs == CSIZE && !fullspd ==> useNul)
    }

    /** The first part of ntod: NUL gets a table when it is alone in the last class, and there are as many classes as
        characters; not for full-speed scanners. */
    constructor (sets: StateSet, syms: Symbols, comp: Compressor, fullspd: bool)
      requires syms.Valid()
      ensures this.sets == sets && this.syms == syms && this.comp == comp && Records() && lastdfa == 0
      ensures num == syms.Num() && cls == syms.Cls() && made.nultrans == [0] && made.rows == [] && fresh(made)
      ensures this.fullspd == fullspd
      ensures useNul <==> !fullspd && syms.ecgroup[0] == syms.numecs == syms.csize
      ensures Lists() && fresh({symlist, duplist, state, targfreq, targstate})
              && forall e :: 0 <= e <= CSIZE ==> symlist[e] == 0
    {
      hide Interned, Symbols.Num, Symbols.Cls, Bounded;
      this.sets, this.syms, this.comp := sets, syms, comp;
      num, cls := syms.Num(), syms.Cls();
      this.fullspd := fullspd;
      useNul := !fullspd && syms.ecgroup[0] == syms.numecs && syms.numecs == syms.csize;
      made := new RowsMade();
      symlist := new int[CSIZE + 1](_ => 0);
      duplist := new int[CSIZE + 1](_ => 0);
      state := new int[CSIZE + 1](_ => 0);
      targfreq := new int[CSIZE + 1](_ => 0);
      targstate := new int[CSIZE + 1](_ => 0);
      lastdfa := 0;
      dss, dfasiz, dhash, dfaacc := [[]], [0], [0], [0];
      new;
      NoneInterned(Nfa(), sets.accptnum);
    }

    /** The records are in order and fit the buffers. */
    ghost predicate Records()
      reads this, sets
    {
      && |dss| == lastdfa + 1 && Interned(Nfa(), sets.accptnum, dss, dfasiz, dhash, dfaacc)
      && forall i :: 1 <= i < |dss| ==> |dss[i]| < sets.currentMaxDfaSize
    }

    /** The comparison loop of snstods: a record equal to the list in nset, if there is one. The list is sorted on the
        way. */
    method FindRecord(numstates: int, hashval: int, ghost l: seq<int>) returns (i: int, didsort: bool)
      requires Records() && sets.Valid() && 0 <= numstates == |l| < sets.currentMaxDfaSize
               && sets.nset[1..numstates + 1] == l
      requires 0 <= Nfa().last && hashval == SumIn(Members(l), Nfa().last)
      modifies sets.nset
      ensures sets.Valid() && multiset(sets.nset[1..numstates + 1]) == multiset(l) && 1 <= i <= lastdfa + 1
      ensures didsort ==> Ordered(sets.nset[1..numstates + 1], 0, numstates, false)
      ensures i <= lastdfa ==> didsort && dss[i] == sets.nset[1..numstates + 1]
      ensures i == lastdfa + 1 ==> NoneBelow(dss, |dss|, multiset(l))
    {
      hide Interned, Bounded, RecordOk, SumIn, Sane, Ordered, NoneBelow, Permuted;
      didsort := false;
      NoneYet(dss, multiset(l));
      InternedSizes(Nfa(), sets.accptnum, dss, dfasiz, dhash, dfaacc);
      i := 1;
      while i <= lastdfa
        invariant 1 <= i <= lastdfa + 1 && sets.Valid() && multiset(sets.nset[1..numstates + 1]) == multiset(l)
        invariant didsort ==> Ordered(sets.nset[1..numstates + 1], 0, numstates, false)
        invariant NoneBelow(dss, i, multiset(l))
      {
        if hashval == dhash[i] {
          if numstates == dfasiz[i] {
            if !didsort {
              ghost var before := sets.nset[..];
              Bubble(sets.nset, numstates);
              SortedPart(before, sets.nset[..], numstates);
              didsort := true;
            }
            ghost var now := sets.nset[1..numstates + 1];
            var same := SameList(numstates, i);
            Compared(Nfa(), sets.accptnum, dss, dfasiz, dhash, dfaacc, i, now);
            if same { return; }
          } else {
            DifferentHash(Nfa(), sets.accptnum, dss, dfasiz, dhash, dfaacc, i, l, hashval);
          }
        } else {
          DifferentHash(Nfa(), sets.accptnum, dss, dfasiz, dhash, dfaacc, i, l, hashval);
        }
        i := i + 1;
      }
    }

    /** The element by element comparison with record i. */
    method SameList(numstates: int, i: int) returns (same: bool)
      requires 1 <= i < |dss| && 0 <= numstates == |dss[i]| && numstates < sets.nset.Length
      ensures same <==> dss[i] == sets.nset[1..numstates + 1]
    {
      var j := 1;
      while j <= numstates
        invariant 1 <= j <= numstates + 1 && forall q :: 0 <= q < j - 1 ==> dss[i][q] == sets.nset[1 + q]
      {
        if sets.nset[j] != dss[i][j - 1] {
          assert sets.nset[1..numstates + 1][j - 1] != dss[i][j - 1];
          return false;
        }
        j := j + 1;
      }
      return true;
    }

    lemma NoAccepts(acc: seq<int>, l: seq<int>, accs: seq<int>)
      requires AccsOf(acc, l, accs) && |accs| == 0
      ensures Lowest(acc, l, 0)
    {}

    /** The lowest of the accepting numbers. */
    method LowestAccept(nacc: int, ghost l: seq<int>) returns (j: int)
      requires sets.Shape() && 0 <= nacc <= sets.numRules && AccsOf(sets.accptnum, l, sets.accset[1..nacc + 1])
               && InNet(Nfa(), l)
      ensures Lowest(sets.accptnum, l, j)
    {
      if nacc == 0 {
        NoAccepts(sets.accptnum, l, sets.accset[1..nacc + 1]);
        return 0;
      }
      j := sets.numRules + 1;
      var i := 1;
      while i <= nacc
        invariant 1 <= i <= nacc + 1
        invariant if i == 1 then j == sets.numRules + 1 else j in sets.accset[1..i]
        invariant forall q :: 1 <= q < i ==> j <= sets.accset[q]
      {
        assert sets.accset[1..nacc + 1][i - 1] == sets.accset[i];
        assert AccIn(sets.accptnum, l, sets.accset[i]);
        if sets.accset[i] < j { j := sets.accset[i]; }
        i := i + 1;
      }
      assert j in sets.accset[1..nacc + 1];
      forall a | AccIn(sets.accptnum, l, a) ensures j <= a {
        var q :| 0 <= q < nacc && sets.accset[1..nacc + 1][q] == a;
        assert sets.accset[1 + q] == a;
      }
    }

    /** The local arrays of ntod. */
    ghost predicate Lists() {
      && symlist.Length == duplist.Length == state.Length == targfreq.Length == targstate.Length == CSIZE + 1
      && symlist != duplist && symlist != state && symlist != targfreq && symlist != targstate && duplist != state
      && duplist != targfreq && duplist != targstate && state != targfreq && state != targstate && targfreq != targstate
    }

    ghost const Locals: set<object> := {symlist, duplist, state, targfreq, targstate}

    /** The arrays and objects involved do not overlap. */
    ghost predicate Separate()
      reads sets, syms.ccls
    {
      && made !in comp.Repr
      && this !in comp.Repr && sets !in comp.Repr && sets.nset !in comp.Repr && sets.stk !in comp.Repr
      && sets.trans1 !in comp.Repr && sets.accset !in comp.Repr
      && syms.ccls !in comp.Repr && syms.ccls.ccltbl !in comp.Repr && syms.ecgroup !in comp.Repr
         && syms.cclflags !in comp.Repr
      && {sets.nset, sets.stk, sets.trans1, sets.accset} !! {syms.ecgroup, syms.cclflags, syms.ccls.ccltbl}
      && Lists() && Locals !! comp.Repr && Locals !! {sets.nset, sets.stk, sets.trans1, sets.accset}
      && Locals !! {syms.ecgroup, syms.cclflags, syms.ccls.ccltbl}
    }

    /** Between two steps of ntod. */
    ghost predicate Valid()
      reads this, sets, sets.trans1, syms.ccls, syms.ccls.ccltbl, syms.ecgroup, syms.cclflags, comp.Repr
    {
      && Separate() && sets.Valid() && syms.Valid() && comp.Valid() && Records()
      && syms.numecs == comp.numecs && lastdfa < |comp.x.base|
      && NfaFine() && syms.Num() == num && syms.Cls() == cls && syms.ccls.lastccl == |cls|
    }

    /** The successor of DFA state ds on sym: symfollowset, epsclosure and snstods in a row. */
    method FollowSymbol(ds: int, sym: int) returns (newds: int)
      requires Valid() && 1 <= ds <= lastdfa
      modifies this, sets, sets.nset, sets.stk, sets.accset, sets.trans1, comp.x`base, comp.x`def
      ensures Valid() && old(dss) <= dss && 1 <= newds <= lastdfa
      ensures |dss| == |old(dss)| || |dss| == |old(dss)| + 1 == newds + 1
      ensures multiset(dss[newds]) == ClosureOf(Nfa(), sets.accptnum, Follow(Nfa(), num, cls, old(dss)[ds], sym))
      ensures (sets.nset == old(sets.nset) || fresh(sets.nset)) && (sets.stk == old(sets.stk) || fresh(sets.stk))
      ensures comp.rows == old(comp.rows) && comp.temps == old(comp.temps) && comp.eob == old(comp.eob)
    {
      hide *;
      Sizes();
      Parts();
      ghost var f := Follow(Nfa(), num, cls, dss[ds], sym);
      FollowFacts(ds, sym);
      var numstates, nacc, hashval := FollowClosure(ds, sym);
      TargetBounded(Nfa(), sets.accptnum, f, sets.nset[1..numstates + 1]);
      var isNew;
      isNew, newds := Snstods(numstates, nacc, hashval, sets.nset[1..numstates + 1]);
      Sizes();
    }

    /** symfollowset and epsclosure. */
    method FollowClosure(ds: int, sym: int) returns (numstates: int, nacc: int, hashval: int)
      requires Valid() && 1 <= ds <= lastdfa
      modifies sets, sets.nset, sets.stk, sets.accset, sets.trans1
      ensures Valid() && 0 <= numstates < sets.currentMaxDfaSize == sets.nset.Length && 0 <= nacc <= sets.numRules
      ensures multiset(sets.nset[1..numstates + 1])
              == ClosureOf(Nfa(), sets.accptnum, Follow(Nfa(), num, cls, dss[ds], sym))
      ensures hashval == SumIn(Members(sets.nset[1..numstates + 1]), sets.lastnfa)
      ensures AccsOf(sets.accptnum, sets.nset[1..numstates + 1], sets.accset[1..nacc + 1])
      ensures (sets.nset == old(sets.nset) || fresh(sets.nset)) && (sets.stk == old(sets.stk) || fresh(sets.stk))
    {
      hide Interned, Bounded, RecordOk, SumIn, Sane, ClosureOf, Follow, AccsOf, Compressor.Valid,
           Symbols.Valid, NfaFine, EcClasses, InNet, LabelsOk, Solid, Closed, Tidy;
      ghost var f := Follow(Nfa(), num, cls, dss[ds], sym);
      FollowFacts(ds, sym);
      numstates := syms.SymFollowSet(sets, dss[ds], sym);
      assert sets.nset[1..numstates + 1] == f;
      numstates, nacc, hashval := sets.EpsClosure(numstates, f);
      assert Records() && syms.Valid();
    }

    lemma FollowFacts(ds: int, sym: int)
      requires NfaFine() && Records() && 1 <= ds <= lastdfa
      ensures InNet(Nfa(), dss[ds]) && |dss[ds]| < sets.currentMaxDfaSize
              && LabelsOk(Nfa(), num, |cls|, syms.csize, syms.numecs)
      ensures var f := Follow(Nfa(), num, cls, dss[ds], sym);
              |f| <= Nfa().last && InNet(Nfa(), f) && forall s :: Solid(Nfa(), s) ==> multiset(f)[s] <= 1
    {
      assert RecordOk(Nfa(), sets.accptnum, dss[ds], dhash[ds], dfaacc[ds]);
      FollowBounded(Nfa(), num, cls, dss[ds], sym);
    }

    /** snstods: the number of the DFA state whose record is the list l in nset; a new one if there is none yet. */
    method Snstods(numstates: int, nacc: int, hashval: int, ghost l: seq<int>) returns (isNew: bool, newds: int)
      requires Valid() && 0 <= numstates == |l| < sets.currentMaxDfaSize && sets.nset[1..numstates + 1] == l
               && Bounded(Nfa(), l)
      requires hashval == SumIn(Members(l), sets.lastnfa) && 0 <= nacc <= sets.numRules
      requires AccsOf(sets.accptnum, l, sets.accset[1..nacc + 1])
      modifies this, sets.nset, comp.x`base, comp.x`def
      ensures Valid() && old(dss) <= dss && 1 <= newds <= lastdfa && multiset(dss[newds]) == multiset(l)
      ensures isNew ==> newds == lastdfa == old(lastdfa) + 1 && NoneBelow(old(dss), |old(dss)|, multiset(l))
      ensures !isNew ==> dss == old(dss) && lastdfa == old(lastdfa)
      ensures comp.rows == old(comp.rows) && comp.temps == old(comp.temps) && comp.eob == old(comp.eob)
    {
      hide *;
      Parts();
      Outside();
      sets.Known();
      NfaIs();
      BoundedNet(Nfa(), l);
      SaneFacts(Nfa(), sets.accptnum, sets.numRules);
      var accept := LowestAccept(nacc, l);
      var i, didsort := FindRecord(numstates, hashval, l);
      if i <= lastdfa {
        Together();
        return false, i;
      }
      if lastdfa + 1 >= |comp.x.base| { comp.MoreDfas(); }
      NewRecord(numstates, didsort, hashval, accept, l);
      Together();
      return true, lastdfa;
    }

    /** The second half of snstods: a new DFA state. */
    method NewRecord(numstates: int, didsort: bool, hashval: int, accept: int, ghost l: seq<int>)
      requires Records() && sets.Valid() && 0 <= numstates == |l| < sets.currentMaxDfaSize && Bounded(Nfa(), l)
               && Nfa().last >= 0
      requires multiset(sets.nset[1..numstates + 1]) == multiset(l)
      requires didsort ==> Ordered(sets.nset[1..numstates + 1], 0, numstates, false)
      requires hashval == SumIn(Members(l), Nfa().last) && Lowest(sets.accptnum, l, accept)
               && NoneBelow(dss, |dss|, multiset(l))
      modifies this, sets.nset
      ensures Records() && sets.Valid() && old(dss) <= dss && lastdfa == old(lastdfa) + 1
              && multiset(dss[lastdfa]) == multiset(l)
    {
      hide Interned, Bounded, RecordOk, SumIn, Sane, Ordered, NoneBelow, Lowest, Permuted;
      lastdfa := lastdfa + 1;
      if !didsort {
        ghost var before := sets.nset[..];
        Bubble(sets.nset, numstates);
        SortedPart(before, sets.nset[..], numstates);
      }
      ghost var d := sets.nset[1..numstates + 1];
      Recorded(Nfa(), sets.accptnum, l, d, hashval, accept);
      InternedMore(Nfa(), sets.accptnum, dss, dfasiz, dhash, dfaacc, d, hashval, accept);
      dss := dss + [sets.nset[1..numstates + 1]];
      dfasiz := dfasiz + [numstates];
      dhash := dhash + [hashval];
      dfaacc := dfaacc + [accept];
    }

    /** The loop state of ntod for DFA state ds. */
    ghost predicate Sweeping(ds: int, dup0: seq<int>, targptr: int, total: int, sym: int)
      reads this, symlist, duplist, state, targfreq, targstate
    {
      && 1 <= ds < |dss|
      && Swept(Nfa(), sets.accptnum, num, cls, dss, dss[ds], state[..], symlist[..], duplist[..],
         dup0, targstate[..], targfreq[..],
               targptr, total, sym, syms.numecs)
      && DupOk(Nfa(), num, cls, dss[ds], dup0, syms.numecs)
    }

    /** The body of the symbol loop of ntod. */
    method SweepSymbol(ds: int, sym: int, targptr: int, total: int, ghost dup0: seq<int>)
      returns (targptr': int, total': int)
      requires Valid() && 1 <= ds <= lastdfa && 1 <= sym <= syms.numecs && Sweeping(ds, dup0, targptr, total, sym)
      modifies this, sets, sets.nset, sets.stk, sets.accset, sets.trans1, comp.x`base, comp.x`def, Locals
      ensures OneFresh(|old(dss)|, |dss|, old(state[..]), state[..], sym)
      ensures Valid() && old(dss) <= dss && ds <= lastdfa && Sweeping(ds, dup0, targptr', total', sym + 1)
      ensures (sets.nset == old(sets.nset) || fresh(sets.nset)) && (sets.stk == old(sets.stk) || fresh(sets.stk))
      ensures comp.rows == old(comp.rows) && comp.temps == old(comp.temps) && comp.eob == old(comp.eob)
    {
      hide Records, Compressor.Valid, Symbols.Valid, StateSet.Valid, NfaFine, Swept, DupOk, ClosureOf, Follow;
      SweptSizes(Nfa(), sets.accptnum, num, cls, dss, dss[ds], state[..], symlist[..], duplist[..],
          dup0, targstate[..], targfreq[..],
                 targptr, total, sym, syms.numecs);
      targptr', total' := targptr, total;
      if symlist[sym] != 0 {
        if duplist[sym] == 0 {
          targptr' := SweepOwn(ds, sym, targptr, total, dup0);
        } else {
          SweepShared(ds, sym, targptr, total, dup0);
        }
        total' := total + 1;
      } else {
        SweepNothing(Nfa(), sets.accptnum, num, cls, dss, dss[ds], state[..], symlist[..], duplist[..],
            dup0, targstate[..], targfreq[..],
                     targptr, total, sym, syms.numecs);
      }
    }

    /** A symbol with out-transitions of its own. */
    method SweepOwn(ds: int, sym: int, targptr: int, ghost total: int, ghost dup0: seq<int>) returns (targptr': int)
      requires Valid() && 1 <= ds <= lastdfa && 1 <= sym <= syms.numecs && Sweeping(ds, dup0, targptr, total, sym)
      requires symlist[sym] != 0 && duplist[sym] == 0
      modifies this, sets, sets.nset, sets.stk, sets.accset, sets.trans1, comp.x`base, comp.x`def, Locals
      ensures OneFresh(|old(dss)|, |dss|, old(state[..]), state[..], sym)
      ensures Valid() && old(dss) <= dss && ds <= lastdfa && Sweeping(ds, dup0, targptr', total + 1, sym + 1)
      ensures (sets.nset == old(sets.nset) || fresh(sets.nset)) && (sets.stk == old(sets.stk) || fresh(sets.stk))
      ensures comp.rows == old(comp.rows) && comp.temps == old(comp.temps) && comp.eob == old(comp.eob)
    {
      hide Compressor.Valid, Symbols.Valid, StateSet.Valid, NfaFine, Swept, DupOk, ClosureOf, Follow, Interned;
      ghost var dss0, row0 := dss, state[..];
      Sizes();
      var newds := FollowSymbol(ds, sym);
      assert state[..] == row0;
      targptr' := StoreTarget(ds, sym, targptr, newds, dss0, total, dup0);
    }

    /** The new target is noted. */
    method StoreTarget(ds: int, sym: int, targptr: int, newds: int, ghost dss0: seq<seq<int>>, ghost total: int,
                       ghost dup0: seq<int>)
      returns (targptr': int)
      requires Lists() && 1 <= sym <= syms.numecs && 1 <= ds < |dss0| && dss0 <= dss && 1 <= newds < |dss|
      requires Swept(Nfa(), sets.accptnum, num, cls, dss0, dss0[ds], state[..], symlist[..], duplist[..],
               dup0, targstate[..], targfreq[..],
                     targptr, total, sym, syms.numecs)
      requires DupOk(Nfa(), num, cls, dss0[ds], dup0, syms.numecs) && symlist[sym] != 0
      requires multiset(dss[newds]) == ClosureOf(Nfa(), sets.accptnum, Follow(Nfa(), num, cls, dss0[ds], sym))
      modifies Locals
      ensures Sweeping(ds, dup0, targptr', total + 1, sym + 1) && state[..] == old(state[..])[sym := newds]
    {
      hide Swept, DupOk, ClosureOf, Follow;
      ghost var state0, list0, dupl0, ts0, tf0 := state[..], symlist[..], duplist[..], targstate[..], targfreq[..];
      SweptSizes(Nfa(), sets.accptnum, num, cls, dss0, dss0[ds], state0, list0, dupl0, dup0, ts0,
          tf0, targptr, total, sym, syms.numecs);
      symlist[sym] := 0;
      state[sym] := newds;
      targptr' := targptr + 1;
      targfreq[targptr'] := 1;
      targstate[targptr'] := newds;
      duplist[sym] := 0;
      SweepNew(Nfa(), sets.accptnum, num, cls, dss0, dss, dss0[ds], state0, list0, dupl0, dup0,
          ts0, tf0, targptr, total, sym, syms.numecs, newds);
    }

    /** A symbol with the same transitions as an earlier one. */
    method SweepShared(ds: int, sym: int, targptr: int, ghost total: int, ghost dup0: seq<int>)
      requires Lists() && 1 <= sym <= syms.numecs && Sweeping(ds, dup0, targptr, total, sym)
      requires symlist[sym] != 0 && duplist[sym] != 0
      modifies Locals
      ensures Sweeping(ds, dup0, targptr, total + 1, sym + 1)
      ensures OneFresh(|dss|, |dss|, old(state[..]), state[..], sym)
    {
      hide Swept, DupOk, ClosureOf, Follow;
      ghost var state0, list0, dupl0, ts0, tf0 := state[..], symlist[..], duplist[..], targstate[..], targfreq[..];
      SweptSizes(Nfa(), sets.accptnum, num, cls, dss, dss[ds], state0, list0, dupl0, dup0, ts0,
          tf0, targptr, total, sym, syms.numecs);
      DupTarget(Nfa(), sets.accptnum, num, cls, dss, dss[ds], state0, list0, dupl0, dup0, ts0,
          tf0, targptr, total, sym, syms.numecs);
      symlist[sym] := 0;
      var targ := state[duplist[sym]];
      state[sym] := targ;
      var i := 1;
      while targstate[i] != targ
        invariant 1 <= i <= targptr && exists k :: i <= k <= targptr && targstate[k] == targ
        decreases targptr - i
      {
        i := i + 1;
      }
      targfreq[i] := targfreq[i] + 1;
      duplist[sym] := 0;
      SweepDup(Nfa(), sets.accptnum, num, cls, dss, dss[ds], state0, list0, dupl0, dup0, ts0, tf0,
          targptr, total, sym, syms.numecs, i);
    }

    /** symlist is clear between two DFA states. */
    ghost predicate Clear()
      reads symlist
    {
      Lists() && forall e :: 1 <= e <= syms.numecs && e <= CSIZE ==> symlist[e] == 0
    }

    /** The row of DFA state ds, with sympartition sparing symbols that have the transitions of another one. */
    method MakeRow(ds: int) returns (targptr: int, total: int)
      requires Valid() && 1 <= ds <= lastdfa && Clear()
      modifies this, sets, sets.nset, sets.stk, sets.accset, sets.trans1, comp.x`base, comp.x`def, Locals, syms.cclflags
      ensures Valid() && old(dss) <= dss && ds <= lastdfa && Clear()
      ensures FreshIn(|old(dss)|, |dss|, state[..], syms.numecs)
      ensures RowOk(Nfa(), sets.accptnum, num, cls, dss, dss[ds], state[..], syms.numecs)
      ensures total == |Targets(state[..], syms.numecs + 1)| && 0 <= targptr <= CSIZE && (total > 0 ==> targptr > 0)
      ensures forall i :: 1 <= i <= targptr ==> targfreq[i] >= 1 && targstate[i] >= 1
                                                && Frequent(state[..], syms.numecs + 1, targstate[i], targfreq[i])
      ensures (sets.nset == old(sets.nset) || fresh(sets.nset)) && (sets.stk == old(sets.stk) || fresh(sets.stk))
      ensures comp.rows == old(comp.rows) && comp.temps == old(comp.temps) && comp.eob == old(comp.eob)
    {
      hide Valid, Swept, DupOk, ClosureOf, Follow, RowOk, Frequent, FreshIn, OneFresh;
      ghost var dss0 := dss;
      Sizes();
      Partitioned(ds);
      ghost var dup0 := duplist[..];
      targptr, total := 0, 0;
      FreshNone(|dss0|, state[..]);
      var sym := 1;
      while sym <= syms.numecs
        invariant 1 <= sym <= syms.numecs + 1 && Valid() && dss0 <= dss && ds <= lastdfa
                  && Sweeping(ds, dup0, targptr, total, sym) && FreshIn(|dss0|, |dss|, state[..], sym - 1)
        invariant (sets.nset == old(sets.nset) || fresh(sets.nset)) && (sets.stk == old(sets.stk) || fresh(sets.stk))
        invariant comp.rows == old(comp.rows) && comp.temps == old(comp.temps) && comp.eob == old(comp.eob)
      {
        ghost var dss1, row1 := dss, state[..];
        targptr, total := SweepSymbol(ds, sym, targptr, total, dup0);
        FreshMore(|dss0|, |dss1|, |dss|, row1, state[..], sym);
        sym := sym + 1;
      }
      SweptAll(Nfa(), sets.accptnum, num, cls, dss, dss[ds], state[..], symlist[..], duplist[..],
          dup0, targstate[..], targfreq[..],
               targptr, total, syms.numecs);
    }

    lemma Sizes()
      requires Valid()
      ensures 1 <= syms.numecs <= CSIZE && Lists() && |dss| == lastdfa + 1 && syms.numecs == comp.numecs
      ensures Nfa().last >= 0
    {}

    lemma Apart()
      requires Valid()
      ensures symlist !in comp.Repr && symlist != sets.nset && symlist != sets.stk && symlist != sets.accset
              && symlist != sets.trans1
      ensures symlist != syms.cclflags && comp in comp.Repr && comp.x in comp.Repr && comp.x.Repr <= comp.Repr
      ensures this !in comp.Repr && sets !in comp.Repr && sets.nset !in comp.Repr && sets.stk !in comp.Repr
      ensures made !in comp.Repr && sets.trans1 !in comp.Repr && state !in comp.Repr && state != sets.trans1
      ensures syms.ccls !in comp.Repr && syms.ccls.ccltbl !in comp.Repr && syms.ecgroup !in comp.Repr
              && syms.cclflags !in comp.Repr
      ensures state != syms.ccls.ccltbl && state != syms.ecgroup && state != syms.cclflags
    {}

    lemma NfaIs()
      ensures Nfa() == sets.Nfa()
    {}

    lemma AllApart()
      requires Lists()
      ensures Locals == {symlist, duplist, state, targfreq, targstate}
      ensures Separate()
              <==> && made !in comp.Repr && this !in comp.Repr && sets !in comp.Repr && sets.nset !in comp.Repr
                   && sets.stk !in comp.Repr && sets.trans1 !in comp.Repr && sets.accset !in comp.Repr
                   && syms.ccls !in comp.Repr && syms.ccls.ccltbl !in comp.Repr && syms.ecgroup !in comp.Repr
                   && syms.cclflags !in comp.Repr
                   && {sets.nset, sets.stk, sets.trans1, sets.accset} !! {syms.ecgroup, syms.cclflags, syms.ccls.ccltbl}
                   && Locals !! comp.Repr && Locals !! {sets.nset, sets.stk, sets.trans1, sets.accset}
                   && Locals !! {syms.ecgroup, syms.cclflags, syms.ccls.ccltbl}
    {}

    lemma ClearNow()
      requires Lists() && forall e :: 0 <= e <= CSIZE ==> symlist[e] == 0
      ensures Clear()
    {}

    /** The objects are none of the arrays of ntod. */
    lemma Outside()
      requires Valid()
      ensures made !in Locals && this !in Locals && sets !in Locals && comp !in Locals && comp.x !in Locals
      ensures comp in comp.Repr && comp.x in comp.Repr && state in Locals
      ensures made !in comp.Repr && this !in comp.Repr && sets !in comp.Repr && sets.nset !in comp.Repr
      ensures sets.nset != syms.ccls.ccltbl && sets.nset != syms.ecgroup && sets.nset != syms.cclflags
      ensures sets.nset != sets.trans1
    {}

    /** Valid taken apart, and put together again, for proofs that do not look into its parts. */
    lemma Parts()
      requires Valid()
      ensures Separate() && sets.Valid() && syms.Valid() && comp.Valid() && Records()
      ensures syms.numecs == comp.numecs && lastdfa < |comp.x.base| && NfaFine()
      ensures syms.Num() == num && syms.Cls() == cls && syms.ccls.lastccl == |cls|
    {}

    lemma Together()
      requires Separate() && sets.Valid() && syms.Valid() && comp.Valid() && Records()
      requires syms.numecs == comp.numecs && lastdfa < |comp.x.base| && NfaFine()
      requires syms.Num() == num && syms.Cls() == cls && syms.ccls.lastccl == |cls|
      ensures Valid()
    {}

    /** The start of the worklist loop of ntod: state is zero, and sympartition has been called. */
    method Partitioned(ds: int)
      requires Valid() && 1 <= ds <= lastdfa && Clear()
      modifies symlist, duplist, state, syms.cclflags
      ensures Valid() && Sweeping(ds, duplist[..], 0, 0, 1)
    {
      hide Records, Compressor.Valid, StateSet.Valid, Swept, DupOk, ClosureOf, Follow, Listed, Separated;
      ClearState();
      DssInNet(ds);
      syms.SymPartition(dss[ds], symlist, duplist, sets.transchar, Nfa());
      SweepStart(Nfa(), sets.accptnum, num, cls, dss, dss[ds], state[..], symlist[..], duplist[..],
          targstate[..], targfreq[..], syms.numecs);
    }

    method ClearState()
      requires Lists() && syms.numecs <= CSIZE
      modifies state
      ensures forall e :: 1 <= e <= syms.numecs ==> state[e] == 0
    {
      var i := 1;
      while i <= syms.numecs
        invariant 1 <= i <= syms.numecs + 1 && forall e :: 1 <= e < i ==> state[e] == 0
      {
        state[i] := 0;
        i := i + 1;
      }
    }

    lemma DssInNet(ds: int)
      requires NfaFine() && Records() && 1 <= ds <= lastdfa
      ensures ds < |dss| && InNet(Nfa(), dss[ds]) && LabelsOk(Nfa(), num, |cls|, syms.csize, syms.numecs)
    {
      assert RecordOk(Nfa(), sets.accptnum, dss[ds], dhash[ds], dfaacc[ds]);
    }

    /** The number at k, and none in front of it is as large. */
    ghost predicate FirstMax(freqs: seq<int>, k: int, freq: int) {
      1 <= k < |freqs| && freqs[k] == freq && forall j :: 1 <= j < k ==> freqs[j] < freq
    }

    ghost predicate FirstMost(freqs: seq<int>, states: seq<int>, n: int, comstate: int, comfreq: int) {
      if n == 0 then comstate == 0 == comfreq
      else exists i :: 1 <= i <= n && i < |states| && states[i] == comstate && FirstMax(freqs, i, comfreq)
    }

    /** The most common target, the first one noted if there are several, and how often it was noted. */
    method MostCommon(targptr: int) returns (comstate: int, comfreq: int)
      requires Lists() && 0 <= targptr <= CSIZE && forall i :: 1 <= i <= targptr
                                                     ==> targfreq[i] >= 1 && targstate[i] >= 1
      ensures targptr > 0 ==> comstate > 0 && exists i :: 1 <= i <= targptr && targstate[i] == comstate
                                                          && targfreq[i] == comfreq
      ensures FirstMost(targfreq[..], targstate[..], targptr, comstate, comfreq)
      ensures targptr == 0 ==> comfreq == 0
      ensures forall i :: 1 <= i <= targptr ==> targfreq[i] <= comfreq
    {
      comfreq, comstate := 0, 0;
      var i := 1;
      while i <= targptr
        invariant 1 <= i <= targptr + 1
        invariant i > 1 ==> comstate > 0 && exists k :: 1 <= k < i && targstate[k] == comstate
                                                        && FirstMax(targfreq[..], k, comfreq)
        invariant forall k :: 1 <= k < i ==> targfreq[k] <= comfreq
        invariant i == 1 ==> comstate == 0 == comfreq
      {
        if targfreq[i] > comfreq {
          comfreq := targfreq[i];
          comstate := targstate[i];
        }
        i := i + 1;
      }
    }

    /** What has been made of the rows so far: the compressed tables have them all, except for the transitions on NUL if
        these have a table, and a row with transitions cannot be taken for one without. */
    ghost predicate Tabled()
      reads made, comp, comp.x
    {
      && Parted(made.rows, comp.rows, made.nultrans, useNul, syms.numecs)
      && AllLive(made.rows, comp.x.Entries(), syms.numecs)
    }

    /** The end of the worklist loop: the row goes into the compressed tables. mkentry can read behind the array state;
        what lies there is arbitrary. */
    method EnterRow(ds: int, targptr: int, total: int, endOfBufferState: int) returns (r: Result<()>)
      requires Valid() && !fullspd && Tabled() && ds == |made.rows| + 1 <= lastdfa && |comp.temps| <= |comp.rows|
      requires |comp.temps| <= WideRows(made.rows, syms.numecs)
      requires RowsOk(Nfa(), sets.accptnum, num, cls, dss, made.rows, syms.numecs)
      requires RowOk(Nfa(), sets.accptnum, num, cls, dss, dss[ds], state[..], syms.numecs)
      requires total == |Targets(state[..], syms.numecs + 1)| && 0 <= targptr <= CSIZE && (total > 0 ==> targptr > 0)
      requires forall i :: 1 <= i <= targptr
                 ==> targfreq[i] >= 1 && targstate[i] >= 1
                     && Frequent(state[..], syms.numecs + 1, targstate[i], targfreq[i])
      requires ds == endOfBufferState ==> comp.eob == 0 && dss[ds] == []
      modifies comp.Repr, state, made
      ensures r.Failure? ==> r.error == TooManyTemplates
                             && exists row :: Misled(row, comp.rows, comp.temps, syms.numecs)
      ensures |made.rows| == ds && |comp.temps| <= WideRows(made.rows, syms.numecs)
      ensures r.Success? ==> Valid() && Tabled() && |comp.temps| <= |comp.rows|
      ensures RowsOk(Nfa(), sets.accptnum, num, cls, dss, made.rows, syms.numecs)
      ensures r.Success? ==> comp.eob == if ds == endOfBufferState then ds else old(comp.eob)
      ensures RowEntered(old(made.rows), made.rows, old(state[..syms.numecs + 1]), syms.numecs)
    {
      hide *;
      Sizes();
      Apart();
      Parts();
      NulLast();
      TabledIs();
      ghost var full, nul0 := state[..syms.numecs + 1], made.nultrans;
      PartedSizes(made.rows, comp.rows, made.nultrans, useNul, syms.numecs);
      RowReady(Nfa(), sets.accptnum, num, cls, dss, dss[ds], state[..], syms.numecs);
      AllPrefix(state[..], syms.numecs, targstate[..], targfreq[..], targptr);
      SpareNul(full);
      Together();
      SparedIs(ds, full, nul0);
      if ds == endOfBufferState {
        EnterEobRow(ds, full, nul0);
        return Success(());
      }
      r := EnterOwnRow(ds, targptr, total, full, nul0);
    }

    /** The transition on NUL goes to its own table, if there is one. */
    method SpareNul(ghost full: seq<int>)
      requires Lists() && syms.numecs <= CSIZE && full == state[..syms.numecs + 1]
      requires useNul ==> syms.nulEc == syms.numecs
      modifies state, made`nultrans
      ensures PartedRow(full, state[..syms.numecs + 1], useNul, syms.numecs)
      ensures useNul ==> made.nultrans == old(made.nultrans) + [full[syms.numecs]]
    {
      if useNul {
        made.nultrans := made.nultrans + [state[syms.nulEc]];
        state[syms.nulEc] := 0;
        assert state[..syms.numecs + 1] == full[syms.numecs := 0];
      }
    }

    /** The rows before are in the tables, and the transition on NUL of this one is in its own table. */
    ghost predicate Spared(ds: int, full: seq<int>, nul0: seq<int>)
      reads made, comp, comp.x, state
    {
      && Lists() && syms.numecs <= CSIZE && PartedRow(full, state[..syms.numecs + 1], useNul, syms.numecs)
      && (useNul ==> made.nultrans == nul0 + [full[syms.numecs]])
      && Parted(made.rows, comp.rows, nul0, useNul, syms.numecs) && ds == |made.rows| + 1
      && AllLive(made.rows, comp.x.Entries(), syms.numecs)
    }

    /** The end-of-buffer state jams on everything. */
    method EnterEobRow(ds: int, ghost full: seq<int>, ghost nul0: seq<int>)
      requires Valid() && Spared(ds, full, nul0) && ds <= lastdfa && comp.eob == 0 && dss[ds] == []
      requires |comp.temps| <= WideRows(made.rows, syms.numecs)
      requires RowsOk(Nfa(), sets.accptnum, num, cls, dss, made.rows, syms.numecs)
      requires RowOk(Nfa(), sets.accptnum, num, cls, dss, [], full, syms.numecs)
      modifies comp.Repr, made`rows
      ensures Valid() && Tabled() && |made.rows| == ds == comp.eob && comp.temps == old(comp.temps)
      ensures |comp.rows| == old(|comp.rows|) + 1 && |comp.temps| <= WideRows(made.rows, syms.numecs)
      ensures RowsOk(Nfa(), sets.accptnum, num, cls, dss, made.rows, syms.numecs)
      ensures RowEntered(old(made.rows), made.rows, full, syms.numecs)
    {
      hide *;
      ghost var rows0, kept0, entries0 := made.rows, comp.rows, comp.x.Entries();
      Sizes();
      Apart();
      Parts();
      SparedIs(ds, full, nul0);
      PartedSizes(rows0, kept0, nul0, useNul, syms.numecs);
      comp.EnterEob(ds);
      EobRow(Nfa(), sets.accptnum, num, cls, dss, comp.rows, full, rows0, syms.numecs);
      made.rows := made.rows + [comp.rows[ds - 1]];
      EobParted(full, comp.rows[ds - 1], useNul, syms.numecs);
      PartedMore(rows0, kept0, nul0, useNul, syms.numecs, comp.rows[ds - 1], comp.rows[ds - 1], made.nultrans);
      LiveEob(rows0, entries0, comp.x.Entries(), syms.numecs, comp.rows[ds - 1]);
      WideMore(rows0, comp.rows[ds - 1], syms.numecs);
      TabledIs();
      Together();
    }

    /** Any other state: its row is packed by bldtbl. */
    method EnterOwnRow(ds: int, targptr: int, total: int, ghost full: seq<int>, ghost nul0: seq<int>)
      returns (r: Result<()>)
      requires Valid() && !fullspd && Spared(ds, full, nul0) && ds <= lastdfa && |comp.temps| <= |comp.rows|
      requires |comp.temps| <= WideRows(made.rows, syms.numecs)
      requires RowsOk(Nfa(), sets.accptnum, num, cls, dss, made.rows, syms.numecs)
      requires RowOk(Nfa(), sets.accptnum, num, cls, dss, dss[ds], full, syms.numecs) && IsRow(full, syms.numecs)
      requires total == |Nonzero(full, syms.numecs)| && 0 <= targptr <= CSIZE && (total > 0 ==> targptr > 0)
      requires forall i :: 1 <= i <= targptr
                 ==> targfreq[i] >= 1 && targstate[i] >= 1
                     && Frequent(full, syms.numecs + 1, targstate[i], targfreq[i])
      modifies comp.Repr, made`rows
      ensures r.Failure? ==> r.error == TooManyTemplates
                             && exists row :: Misled(row, comp.rows, comp.temps, syms.numecs)
      ensures |made.rows| == ds && |comp.temps| <= WideRows(made.rows, syms.numecs)
      ensures r.Success? ==> Valid() && Tabled() && |comp.temps| <= |comp.rows|
      ensures RowsOk(Nfa(), sets.accptnum, num, cls, dss, made.rows, syms.numecs)
      ensures r.Success? ==> comp.eob == old(comp.eob)
      ensures RowEntered(old(made.rows), made.rows, full, syms.numecs)
    {
      hide *;
      ghost var rows0, kept0, entries0 := made.rows, comp.rows, comp.x.Entries();
      Sizes();
      Apart();
      Parts();
      NulLast();
      SparedIs(ds, full, nul0);
      PartedSizes(rows0, kept0, nul0, useNul, syms.numecs);
      var comstate, comfreq := MostCommon(targptr);
      var behind: int := *;
      ghost var row := state[..comp.numecs + 1];
      RowCounted(full, row, useNul, syms.numecs, total, targptr, targstate[..], targfreq[..], comstate, comfreq);
      var built, at, d := comp.BldTbl(state[..comp.numecs + 1], ds, total, comstate, comfreq, behind);
      made.rows := made.rows + [full];
      comp.RowLength(full, syms.numecs);
      FullEntered(Nfa(), sets.accptnum, num, cls, dss, rows0, full, syms.numecs, total);
      if built.Failure? { return built; }
      PartedMore(rows0, kept0, nul0, useNul, syms.numecs, full, row, made.nultrans);
      LiveMore(rows0, entries0, comp.x.Entries(), syms.numecs, full, total);
      TabledIs();
      Together();
      return Success(());
    }

    lemma NulLast()
      requires NfaFine() && !fullspd
      ensures (useNul ==> syms.nulEc == syms.numecs == syms.csize >= 128) && (syms.numecs == CSIZE ==> useNul)
    {}

    lemma TabledIs()
      ensures Tabled() <==> Parted(made.rows, comp.rows, made.nultrans, useNul, syms.numecs)
                            && AllLive(made.rows, comp.x.Entries(), syms.numecs)
    {}

    lemma SparedIs(ds: int, full: seq<int>, nul0: seq<int>)
      ensures Spared(ds, full, nul0)
              <==> && Lists() && syms.numecs <= CSIZE && PartedRow(full, state[..syms.numecs + 1], useNul, syms.numecs)
                   && (useNul ==> made.nultrans == nul0 + [full[syms.numecs]])
                   && Parted(made.rows, comp.rows, nul0, useNul, syms.numecs) && ds == |made.rows| + 1
                   && AllLive(made.rows, comp.x.Entries(), syms.numecs)
    {}

    /** The records of the start states, in order. */
    ghost predicate Started(starts: seq<int>, k: int)
      reads this
    {
      && 0 <= k < |dss| && k < |starts|
      && forall i :: 1 <= i <= k ==> multiset(dss[i]) == ClosureOf(Nfa(), sets.accptnum, [starts[i]])
    }

    /** The first loop of ntod: start state i becomes DFA state i. */
    method MakeStartStates(starts: seq<int>)
      requires Valid() && lastdfa == 0 && StartsFine(Nfa(), sets.accptnum, starts)
      modifies this, sets, sets.nset, sets.stk, sets.accset, sets.trans1, comp.x`base, comp.x`def
      ensures Valid() && lastdfa == |starts| - 1 && Started(starts, |starts| - 1)
      ensures (sets.nset == old(sets.nset) || fresh(sets.nset)) && (sets.stk == old(sets.stk) || fresh(sets.stk))
      ensures comp.rows == old(comp.rows) && comp.temps == old(comp.temps) && comp.eob == old(comp.eob)
    {
      hide Valid, ClosureOf, StartsFine;
      Sizes();
      StartsMany(Nfa(), sets.accptnum, starts);
      var i := 1;
      while i < |starts|
        invariant 1 <= i <= |starts| && Valid() && lastdfa == i - 1 && Started(starts, i - 1)
        invariant (sets.nset == old(sets.nset) || fresh(sets.nset)) && (sets.stk == old(sets.stk) || fresh(sets.stk))
        invariant comp.rows == old(comp.rows) && comp.temps == old(comp.temps) && comp.eob == old(comp.eob)
      {
        ghost var dss0 := dss;
        var isNew, ds, l := StartState(starts[i], i, starts);
        Sizes();
        if !isNew { StartIsNew(Nfa(), sets.accptnum, starts, i, dss0, ds, l); }
        i := i + 1;
      }
    }

    /** The closure of one start state is recorded. */
    method StartState(s: int, ghost i: int, ghost starts: seq<int>) returns (isNew: bool, ds: int, ghost l: seq<int>)
      requires Valid() && StartsFine(Nfa(), sets.accptnum, starts) && 1 <= i < |starts| && s == starts[i]
      modifies this, sets, sets.nset, sets.stk, sets.accset, sets.trans1, comp.x`base, comp.x`def
      ensures Valid() && old(dss) <= dss && 1 <= ds <= lastdfa
              && multiset(dss[ds]) == multiset(l) == ClosureOf(Nfa(), sets.accptnum, [s])
      ensures isNew ==> ds == lastdfa == old(lastdfa) + 1
      ensures !isNew ==> dss == old(dss) && lastdfa == old(lastdfa)
      ensures (sets.nset == old(sets.nset) || fresh(sets.nset)) && (sets.stk == old(sets.stk) || fresh(sets.stk))
      ensures comp.rows == old(comp.rows) && comp.temps == old(comp.temps) && comp.eob == old(comp.eob)
    {
      hide *;
      Parts();
      StartFacts(starts, i);
      var numstates, nacc, hashval := StartClosure(s);
      l := sets.nset[1..numstates + 1];
      TargetBounded(Nfa(), sets.accptnum, [s], l);
      isNew, ds := Snstods(numstates, nacc, hashval, l);
    }

    lemma StartFacts(starts: seq<int>, i: int)
      requires sets.Valid() && StartsFine(Nfa(), sets.accptnum, starts) && 1 <= i < |starts|
      ensures InNet(Nfa(), [starts[i]]) && |[starts[i]]| <= Nfa().last
              && forall s :: Solid(Nfa(), s) ==> multiset([starts[i]])[s] <= 1
    {
      hide Sane, StartsFine;
      StartAt(Nfa(), sets.accptnum, sets.numRules, starts, i);
    }

    /** epsclosure of a start state. */
    method StartClosure(s: int) returns (numstates: int, nacc: int, hashval: int)
      requires Valid() && InNet(Nfa(), [s])
      modifies sets, sets.nset, sets.stk, sets.accset, sets.trans1
      ensures Valid() && 0 <= numstates < sets.currentMaxDfaSize == sets.nset.Length && 0 <= nacc <= sets.numRules
      ensures multiset(sets.nset[1..numstates + 1]) == ClosureOf(Nfa(), sets.accptnum, [s])
      ensures hashval == SumIn(Members(sets.nset[1..numstates + 1]), sets.lastnfa)
      ensures AccsOf(sets.accptnum, sets.nset[1..numstates + 1], sets.accset[1..nacc + 1])
      ensures (sets.nset == old(sets.nset) || fresh(sets.nset)) && (sets.stk == old(sets.stk) || fresh(sets.stk))
    {
      hide Interned, RecordOk, SumIn, Sane, ClosureOf, AccsOf, Compressor.Valid, Symbols.Valid, NfaFine, EcClasses,
           InNet, LabelsOk, Solid, Closed, Tidy;
      sets.nset[1] := s;
      assert sets.nset[1..2] == [s];
      numstates, nacc, hashval := sets.EpsClosure(1, [s]);
      assert Records() && syms.Valid();
    }

    /** The unique end-of-buffer state: the record of the empty list. */
    method MakeEob(starts: seq<int>) returns (endOfBufferState: int)
      requires Valid() && StartsFine(Nfa(), sets.accptnum, starts) && lastdfa == |starts| - 1
               && Started(starts, |starts| - 1)
      modifies this, sets.nset, comp.x`base, comp.x`def
      ensures Valid() && lastdfa == |starts| == endOfBufferState && Started(starts, |starts| - 1)
              && dss[endOfBufferState] == []
      ensures comp.rows == old(comp.rows) && comp.temps == old(comp.temps) && comp.eob == old(comp.eob)
    {
      hide Interned, RecordOk, Sane, ClosureOf, Compressor.Valid, Symbols.Valid, NfaFine, StartsFine;
      EmptyList(Nfa(), sets.accptnum, sets.numRules);
      assert sets.nset[1..1] == [] && sets.accset[1..1] == [];
      ghost var dss0 := dss;
      var isNew;
      isNew, endOfBufferState := Snstods(0, 0, 0, []);
      SameSize(dss[endOfBufferState], []);
      if !isNew { EobIsNew(Nfa(), sets.accptnum, starts, dss0, endOfBufferState); }
    }

    /** ntod: the DFA of the NFA, with its rows in the compressed tables. It ends for every NFA that nfa.c can
        build: the records are pairwise different lists, and only finitely many can occur. */
    method Ntod(starts: seq<int>) returns (r: Result<int>)
      requires Valid() && !fullspd && Clear() && lastdfa == 0 && comp.rows == [] && comp.temps == [] && comp.eob == 0
      requires made.rows == [] && made.nultrans == [0]
      requires StartsFine(Nfa(), sets.accptnum, starts)
      modifies this, sets, sets.nset, sets.stk, sets.accset, sets.trans1, Locals, syms.cclflags, comp.Repr, made
      ensures r.Failure? ==> r.error == TooManyTemplates
                             && exists row :: Misled(row, comp.rows, comp.temps, syms.numecs)
      ensures r.Success? ==> Valid() && r.value == |starts| == comp.eob <= lastdfa == |comp.rows| == |made.rows|
                             && |comp.temps| <= |comp.rows|
      ensures RowsOk(Nfa(), sets.accptnum, num, cls, dss, made.rows, syms.numecs) && (r.Success? ==> Tabled())
      ensures r.Failure? ==> Records() && -JAMSTATE <= WideRows(made.rows, syms.numecs) + 1
      ensures AllLedTo(made.rows, |starts|, |starts|, |dss|, syms.numecs)
      ensures Primed(Nfa(), sets.accptnum, dss, starts, |starts|)
    {
      hide *;
      StartsMany(Nfa(), sets.accptnum, starts);
      Sizes();
      Apart();
      MakeStartStates(starts);
      Apart();
      var endOfBufferState := MakeEob(starts);
      Sizes();
      RowsNone(Nfa(), sets.accptnum, num, cls, dss, syms.numecs);
      NoneParted(useNul, syms.numecs, comp.x.Entries());
      TabledIs();
      PrimedNow(starts, endOfBufferState);
      NoneLed(|starts|, endOfBufferState, |dss|, syms.numecs);
      NoneWide(syms.numecs);
      var todoHead, todoNext := 0, lastdfa;
      while todoHead < todoNext
        invariant 0 <= todoHead <= todoNext == lastdfa && todoHead == |made.rows| && |comp.temps| <= |comp.rows|
        invariant |comp.temps| <= WideRows(made.rows, syms.numecs)
        invariant Tabled() && AllLedTo(made.rows, |starts|, endOfBufferState, |dss|, syms.numecs)
        invariant Valid() && Clear() && Primed(Nfa(), sets.accptnum, dss, starts, endOfBufferState)
                  && endOfBufferState != 0
        invariant comp.eob == if todoHead >= endOfBufferState then endOfBufferState else 0
        invariant RowsOk(Nfa(), sets.accptnum, num, cls, dss, made.rows, syms.numecs)
        invariant (sets.nset == old(sets.nset) || fresh(sets.nset)) && (sets.stk == old(sets.stk) || fresh(sets.stk))
        decreases |Universe(Nfa().last, 2 * Nfa().last)| - todoHead
      {
        todoHead := todoHead + 1;
        var done := Process(todoHead, starts, endOfBufferState);
        if done.Failure? {
          ghost var row :| Misled(row, comp.rows, comp.temps, syms.numecs);
          LastLeft(row, comp.rows, comp.temps, syms.numecs);
          return Failure(done.error);
        }
        todoNext := lastdfa;
        Finite();
      }
      Sizes();
      TabledIs();
      PartedSizes(made.rows, comp.rows, made.nultrans, useNul, syms.numecs);
      PrimedAt(Nfa(), sets.accptnum, dss, starts, endOfBufferState);
      return Success(endOfBufferState);
    }

    lemma PrimedNow(starts: seq<int>, endOfBufferState: int)
      requires 1 <= |starts| == endOfBufferState < |dss| && dss[endOfBufferState] == []
      requires Started(starts, |starts| - 1)
      ensures Primed(Nfa(), sets.accptnum, dss, starts, endOfBufferState)
    {}

    /** One round of the worklist. */
    method Process(ds: int, starts: seq<int>, endOfBufferState: int) returns (r: Result<()>)
      requires Valid() && !fullspd && Clear() && Tabled() && ds == |made.rows| + 1 <= lastdfa
               && |comp.temps| <= |comp.rows|
      requires Primed(Nfa(), sets.accptnum, dss, starts, endOfBufferState) && endOfBufferState != 0
               && comp.eob == (if ds > endOfBufferState then endOfBufferState else 0)
      requires RowsOk(Nfa(), sets.accptnum, num, cls, dss, made.rows, syms.numecs)
      requires |comp.temps| <= WideRows(made.rows, syms.numecs)
      requires AllLedTo(made.rows, |starts|, endOfBufferState, |dss|, syms.numecs)
      modifies this, sets, sets.nset, sets.stk, sets.accset, sets.trans1, Locals, syms.cclflags, comp.Repr, made
      ensures r.Failure? ==> r.error == TooManyTemplates
                             && exists row :: Misled(row, comp.rows, comp.temps, syms.numecs)
      ensures r.Success? ==> Valid() && Clear() && Tabled() && ds == |made.rows| <= lastdfa
                             && |comp.temps| <= |comp.rows|
      ensures |comp.temps| <= WideRows(made.rows, syms.numecs)
      ensures Primed(Nfa(), sets.accptnum, dss, starts, endOfBufferState)
      ensures r.Success? ==> comp.eob == if ds >= endOfBufferState then endOfBufferState else 0
      ensures RowsOk(Nfa(), sets.accptnum, num, cls, dss, made.rows, syms.numecs)
      ensures Records() && AllLedTo(made.rows, |starts|, endOfBufferState, |dss|, syms.numecs)
      ensures (sets.nset == old(sets.nset) || fresh(sets.nset)) && (sets.stk == old(sets.stk) || fresh(sets.stk))
    {
      hide *;
      ghost var dss0, rows0 := dss, made.rows;
      Sizes();
      Outside();
      TabledIs();
      var targptr, total := MakeRow(ds);
      Sizes();
      Outside();
      Apart();
      TabledIs();
      RowsKept(Nfa(), sets.accptnum, num, cls, dss0, dss, made.rows, syms.numecs);
      PrimedKept(Nfa(), sets.accptnum, dss0, dss, starts, endOfBufferState);
      Sizes();
      StateLong(Nfa(), sets.accptnum, num, cls, dss, dss[ds], state[..], syms.numecs);
      FreshHere(|dss0|, |dss|, state[..], syms.numecs);
      ghost var row := state[..syms.numecs + 1];
      Parts();
      r := EnterRow(ds, targptr, total, endOfBufferState);
      LedMore(rows0, made.rows, row, |starts|, endOfBufferState, |dss0|, |dss|, syms.numecs);
    }

    /** The number of DFA states is bounded. */
    lemma Finite()
      requires Valid()
      ensures lastdfa <= |Universe(Nfa().last, 2 * Nfa().last)|
    {
      var n := Nfa();
      forall i | 1 <= i < |dss| ensures dss[i] in Universe(n.last, 2 * n.last) {
        assert RecordOk(n, sets.accptnum, dss[i], dhash[i], dfaacc[i]);
        InUniverse(n.last, 2 * n.last, dss[i]);
      }
      UniverseBound(n.last, 2 * n.last, dss);
    }
  }

  // ----- the transitions on NUL

  /** The compressed tables have the rows; with a table for NUL, without the transitions on NUL, which are there. */
  ghost predicate Parted(rows: seq<seq<int>>, kept: seq<seq<int>>, nultrans: seq<int>, useNul: bool, numecs: nat) {
    && |kept| == |rows| && (useNul ==> |nultrans| == |rows| + 1)
    && forall s :: 0 <= s < |rows| ==> PartedRow(rows[s], kept[s], useNul, numecs)
                                       && (useNul ==> nultrans[s + 1] == rows[s][numecs])
  }

  ghost predicate PartedRow(row: seq<int>, kept: seq<int>, useNul: bool, numecs: nat) {
    |row| == numecs + 1 && kept == if useNul then row[numecs := 0] else row
  }

  lemma NoneParted(useNul: bool, numecs: nat, entries: map<int, Entry>)
    ensures Parted([], [], [0], useNul, numecs) && AllLive([], entries, numecs)
  {}

  lemma PartedSizes(rows: seq<seq<int>>, kept: seq<seq<int>>, nultrans: seq<int>, useNul: bool, numecs: nat)
    requires Parted(rows, kept, nultrans, useNul, numecs)
    ensures |kept| == |rows|
  {}

  lemma PartedMore(rows: seq<seq<int>>, kept: seq<seq<int>>, nultrans: seq<int>, useNul: bool, numecs: nat,
                 row: seq<int>, row': seq<int>, nultrans': seq<int>)
    requires Parted(rows, kept, nultrans, useNul, numecs) && PartedRow(row, row', useNul, numecs)
    requires useNul ==> nultrans' == nultrans + [row[numecs]]
    ensures Parted(rows + [row], kept + [row'], nultrans', useNul, numecs)
  {}

  lemma EobParted(full: seq<int>, row: seq<int>, useNul: bool, numecs: nat)
    requires |row| == numecs + 1 && numecs < |full| && full[numecs] == row[numecs] == 0
    ensures PartedRow(row, row, useNul, numecs)
  {
    assert row[numecs := 0] == row;
  }

  /** A row has the entry of a state without transitions exactly when it has none, but for the end-of-buffer state. */
  ghost predicate AllLive(rows: seq<seq<int>>, entries: map<int, Entry>, numecs: int) {
    forall s :: 1 <= s <= |rows| ==> s in entries
                                     && (entries[s] == Entry(map[], JAMSTATE)
                                         <==> AllZero(rows[s - 1], numecs) && 0 !in entries[s].ext)
  }

  lemma LiveMore(rows: seq<seq<int>>, before: map<int, Entry>, after: map<int, Entry>, numecs: nat, row: seq<int>,
                 total: int)
    requires AllLive(rows, before, numecs) && Gained(before, after, |rows| + 1, total > 0) && |row| == numecs + 1
    requires total == |Nonzero(row, numecs)|
    ensures AllLive(rows + [row], after, numecs)
  {
    if total == 0 {
      forall c | 1 <= c <= numecs ensures row[c] == 0 { assert c !in Nonzero(row, numecs); }
    } else {
      var c :| c in Nonzero(row, numecs);
      assert row[c] != 0;
    }
    StillLive(rows, before, after, numecs, row, total > 0);
  }

  lemma LiveEob(rows: seq<seq<int>>, before: map<int, Entry>, after: map<int, Entry>, numecs: nat, row: seq<int>)
    requires AllLive(rows, before, numecs) && Gained(before, after, |rows| + 1, true) && |row| == numecs + 1
    requires Nonzero(row, numecs) == {} && 0 in after[|rows| + 1].ext
    ensures AllLive(rows + [row], after, numecs)
  {
    forall c | 1 <= c <= numecs ensures row[c] == 0 { assert c !in Nonzero(row, numecs); }
    StillLive(rows, before, after, numecs, row, true);
  }

  lemma StillLive(rows: seq<seq<int>>, before: map<int, Entry>, after: map<int, Entry>, numecs: nat, row: seq<int>,
                  live: bool)
    requires AllLive(rows, before, numecs) && Gained(before, after, |rows| + 1, live)
    requires live <==> !(AllZero(row, numecs) && 0 !in after[|rows| + 1].ext)
    ensures AllLive(rows + [row], after, numecs)
  {}

  /** The numbers that ntod has counted, for the row without the transition on NUL. */
  lemma RowCounted(full: seq<int>, row: seq<int>, useNul: bool, numecs: nat, total: int, targptr: int,
                   targstate: seq<int>, targfreq: seq<int>, comstate: int, comfreq: int)
    requires IsRow(full, numecs) && PartedRow(full, row, useNul, numecs) && total == |Nonzero(full, numecs)|
    requires 1 <= numecs && (useNul ==> numecs >= 128) && (numecs == CSIZE ==> useNul)
    requires 0 <= targptr < |targstate| == |targfreq| && (total > 0 ==> targptr > 0)
    requires forall i :: 1 <= i <= targptr ==> Frequent(full, numecs + 1, targstate[i], targfreq[i])
    requires targptr > 0 ==> comstate > 0 && exists i :: 1 <= i <= targptr && targstate[i] == comstate
                                                         && targfreq[i] == comfreq
    requires targptr == 0 ==> comfreq == 0
    ensures IsRow(row, numecs) && Counts(row, total, comstate, comfreq, numecs)
  {
    hide Frequent;
    if useNul {
      assert Nonzero(row, numecs) == Nonzero(full, numecs) - {numecs};
    }
    if comfreq > total - |Nonzero(row, numecs)| {
      var i :| 1 <= i <= targptr && targstate[i] == comstate && targfreq[i] == comfreq;
      FrequentOccurs(full, row, useNul, numecs, comstate, comfreq);
    }
  }

  lemma AllPrefix(state: seq<int>, numecs: nat, targstate: seq<int>, targfreq: seq<int>, n: int)
    requires numecs < |state| && 0 <= n < |targstate| == |targfreq|
    requires forall i :: 1 <= i <= n ==> Frequent(state, numecs + 1, targstate[i], targfreq[i])
    ensures forall i :: 1 <= i <= n ==> Frequent(state[..numecs + 1], numecs + 1, targstate[i], targfreq[i])
  {
    hide Frequent;
    forall i | 1 <= i <= n ensures Frequent(state[..numecs + 1], numecs + 1, targstate[i], targfreq[i]) {
      PrefixFrequent(state, numecs, targstate[i], targfreq[i]);
    }
  }

  lemma PrefixFrequent(state: seq<int>, numecs: nat, v: int, freq: int)
    requires numecs < |state| && Frequent(state, numecs + 1, v, freq)
    ensures Frequent(state[..numecs + 1], numecs + 1, v, freq)
  {
    var row := state[..numecs + 1];
    var e :| 1 <= e < numecs + 1 && e < |state| && state[e] == v;
    assert row[e] == v;
    if freq > 1 {
      var k, f :| 1 <= k < f < numecs + 1 && f < |state| && state[k] == v && state[f] == v;
      assert row[k] == v && row[f] == v;
    }
  }

  lemma FrequentOccurs(full: seq<int>, row: seq<int>, useNul: bool, numecs: nat, v: int, freq: int)
    requires PartedRow(full, row, useNul, numecs) && Frequent(full, numecs + 1, v, freq)
    requires useNul && full[numecs] != 0 ==> freq > 1
    requires v > 0
    ensures Occurs(v, row, numecs)
  {
    if useNul && full[numecs] != 0 {
      var e, f :| 1 <= e < f < numecs + 1 && f < |full| && full[e] == v && full[f] == v;
      assert row[e] == v;
    } else {
      var e :| 1 <= e < numecs + 1 && e < |full| && full[e] == v;
      assert row[e] == v;
    }
  }

  /** The start states: different epsilon states that do not accept. */
  ghost predicate StartsFine(n: Net, acc: seq<int>, starts: seq<int>) {
    && |starts| >= 1 && n.last < |acc|
    && (forall i :: 1 <= i < |starts| ==> 1 <= starts[i] <= n.last && !Significant(n, acc, starts[i]))
    && (forall i, j :: 1 <= i < j < |starts| ==> starts[i] != starts[j])
  }

  lemma StartsMany(n: Net, acc: seq<int>, starts: seq<int>)
    requires StartsFine(n, acc, starts)
    ensures |starts| >= 1
  {}

  lemma StartAt(n: Net, acc: seq<int>, numRules: int, starts: seq<int>, i: int)
    requires StartsFine(n, acc, starts) && 1 <= i < |starts| && Sane(n, acc, numRules)
    ensures InNet(n, [starts[i]]) && 1 <= n.last && forall s :: Solid(n, s) ==> multiset([starts[i]])[s] <= 1
  {}

  /** A start state is recorded in its own set only. */
  lemma StartIsNew(n: Net, acc: seq<int>, starts: seq<int>, i: int, dss: seq<seq<int>>, ds: int, l: seq<int>)
    requires StartsFine(n, acc, starts) && 1 <= i < |starts| && |dss| == i && 1 <= ds < i
    requires forall k :: 1 <= k <= i - 1 ==> multiset(dss[k]) == ClosureOf(n, acc, [starts[k]])
    requires multiset(l) == ClosureOf(n, acc, [starts[i]])
    ensures multiset(dss[ds]) != multiset(l)
  {
    assert starts[i] in multiset([starts[i]]);
    assert starts[i] in multiset(l);
    assert starts[i] !in [starts[ds]];
    assert starts[i] !in NewMembers(n, acc, Members([starts[ds]]));
    assert starts[i] !in multiset(dss[ds]);
  }

  lemma EobIsNew(n: Net, acc: seq<int>, starts: seq<int>, dss: seq<seq<int>>, ds: int)
    requires |dss| == |starts| && 1 <= ds < |dss|
    requires forall k :: 1 <= k <= |starts| - 1 ==> multiset(dss[k]) == ClosureOf(n, acc, [starts[k]])
    ensures dss[ds] != []
  {
    assert starts[ds] in multiset([starts[ds]]);
    assert starts[ds] in multiset(dss[ds]);
  }

  lemma EmptyList(n: Net, acc: seq<int>, numRules: int)
    requires Sane(n, acc, numRules)
    ensures Bounded(n, []) && SumIn(Members([]), n.last) == 0 && AccsOf(acc, [], [])
  {
    SumNone(n.last);
    assert Members([]) == {};
  }

  lemma RowsNone(n: Net, acc: seq<int>, num: seq<int>, cls: seq<ClassInfo>, dss: seq<seq<int>>, numecs: int)
    requires |dss| >= 1
    ensures RowsOk(n, acc, num, cls, dss, [], numecs)
  {}

  /** The start states are in place, and so is the end-of-buffer state, unless it is 0: there is none for full-speed
      scanners. */
  ghost predicate Primed(n: Net, acc: seq<int>, dss: seq<seq<int>>, starts: seq<int>, endOfBufferState: int) {
    && 1 <= |starts| <= |dss|
    && (endOfBufferState == 0 || (endOfBufferState == |starts| < |dss| && dss[endOfBufferState] == []))
    && forall i :: 1 <= i < |starts| ==> multiset(dss[i]) == ClosureOf(n, acc, [starts[i]])
  }

  lemma PrimedKept(n: Net, acc: seq<int>, dss: seq<seq<int>>, dss': seq<seq<int>>, starts: seq<int>,
                   endOfBufferState: int)
    requires dss <= dss' && Primed(n, acc, dss, starts, endOfBufferState)
    ensures Primed(n, acc, dss', starts, endOfBufferState)
    ensures endOfBufferState != 0 ==> 1 <= endOfBufferState < |dss'| && dss'[endOfBufferState] == []
  {}

  lemma PrimedAt(n: Net, acc: seq<int>, dss: seq<seq<int>>, starts: seq<int>, endOfBufferState: int)
    requires Primed(n, acc, dss, starts, endOfBufferState) && endOfBufferState != 0
    ensures 1 <= endOfBufferState == |starts| < |dss|
  {}

  lemma RowReady(n: Net, acc: seq<int>, num: seq<int>, cls: seq<ClassInfo>, dss: seq<seq<int>>, d: seq<int>,
                 state: seq<int>, numecs: nat)
    requires RowOk(n, acc, num, cls, dss, d, state, numecs)
    ensures IsRow(state[..numecs + 1], numecs) && Nonzero(state[..numecs + 1], numecs) == Targets(state, numecs + 1)
    ensures RowOk(n, acc, num, cls, dss, d, state[..numecs + 1], numecs)
  {
    hide ClosureOf, Follow;
    forall e | 1 <= e <= numecs ensures state[e] >= 0 { assert RowAt(n, acc, num, cls, dss, d, e, state[e]); }
  }

  /** The next row, with as many transitions as total. */
  lemma FullEntered(n: Net, acc: seq<int>, num: seq<int>, cls: seq<ClassInfo>, dss: seq<seq<int>>, rows: seq<seq<int>>,
                    full: seq<int>, numecs: nat, total: int)
    requires RowsOk(n, acc, num, cls, dss, rows, numecs) && |rows| + 1 < |dss|
    requires RowOk(n, acc, num, cls, dss, dss[|rows| + 1], full, numecs) && |full| == numecs + 1
    requires total == |Nonzero(full, numecs)|
    ensures RowsOk(n, acc, num, cls, dss, rows + [full], numecs) && RowEntered(rows, rows + [full], full, numecs)
    ensures WideRows(rows + [full], numecs) == WideRows(rows, numecs) + if Worth(total, numecs) then 1 else 0
  {
    hide *;
    RowsMore(n, acc, num, cls, dss, rows, full, numecs);
    EnteredNow(rows, full, numecs);
    WideMore(rows, full, numecs);
    WideNow(full, numecs, total);
  }

  lemma StateLong(n: Net, acc: seq<int>, num: seq<int>, cls: seq<ClassInfo>, dss: seq<seq<int>>, d: seq<int>,
                  row: seq<int>, numecs: nat)
    requires RowOk(n, acc, num, cls, dss, d, row, numecs)
    ensures |row| > numecs
  {}

  lemma RowsMore(n: Net, acc: seq<int>, num: seq<int>, cls: seq<ClassInfo>, dss: seq<seq<int>>, rows: seq<seq<int>>,
                 row: seq<int>, numecs: int)
    requires RowsOk(n, acc, num, cls, dss, rows, numecs) && |rows| + 1 < |dss|
             && RowOk(n, acc, num, cls, dss, dss[|rows| + 1], row, numecs)
    ensures RowsOk(n, acc, num, cls, dss, rows + [row], numecs)
  {}

  /** The end-of-buffer state has an empty record, so nothing follows. */
  lemma EobRow(n: Net, acc: seq<int>, num: seq<int>, cls: seq<ClassInfo>, dss: seq<seq<int>>, kept: seq<seq<int>>,
               full: seq<int>, rows: seq<seq<int>>, numecs: nat)
    requires |kept| == |rows| + 1 && RowsOk(n, acc, num, cls, dss, rows, numecs) && |kept| < |dss| && dss[|kept|] == []
    requires |kept[|rows|]| == numecs + 1 && Nonzero(kept[|rows|], numecs) == {}
    requires RowOk(n, acc, num, cls, dss, [], full, numecs)
    ensures RowsOk(n, acc, num, cls, dss, rows + [kept[|rows|]], numecs)
    ensures numecs < |full| && (numecs >= 1 ==> kept[|rows|][numecs] == full[numecs] == 0)
    ensures RowEntered(rows, rows + [kept[|rows|]], full, numecs)
  {
    var row := kept[|rows|];
    forall e | 1 <= e <= numecs ensures RowAt(n, acc, num, cls, dss, [], e, row[e]) && full[e] == 0 && row[e] == 0 {
      assert e !in Nonzero(row, numecs);
      assert RowAt(n, acc, num, cls, dss, [], e, full[e]);
    }
    RowsMore(n, acc, num, cls, dss, rows, row, numecs);
  }

  lemma SweepStart(n: Net, acc: seq<int>, num: seq<int>, cls: seq<ClassInfo>, dss: seq<seq<int>>, d: seq<int>,
                   state: seq<int>, symlist: seq<int>, dup: seq<int>, targstate: seq<int>, targfreq: seq<int>,
                   numecs: int)
    requires |state| == |symlist| == |dup| == |targstate| == |targfreq| == CSIZE + 1 && 0 <= numecs <= CSIZE
    requires forall e :: 1 <= e <= numecs ==> state[e] == 0
    requires Listed(n, num, cls, d, symlist, numecs) && Separated(n, num, cls, d, dup, numecs)
    requires forall e :: 1 <= e <= numecs ==> 0 <= dup[e] < e && (dup[e] != 0 ==> Ecs.Same(dup, e, dup[e]))
    ensures Swept(n, acc, num, cls, dss, d, state, symlist, dup, dup, targstate, targfreq, 0, 0, 1, numecs)
    ensures DupOk(n, num, cls, d, dup, numecs)
  {
    assert Targets(state, 1) == {};
    forall e | 1 <= e <= numecs
      ensures symlist[e] != 0 <==> Follow(n, num, cls, d, e) != []
      ensures dup[e] != 0 ==> Follow(n, num, cls, d, dup[e]) == Follow(n, num, cls, d, e)
    {
      TakenFollow(n, num, cls, d, e);
      if dup[e] != 0 { SameFollow(n, num, cls, d, dup[e], e); }
    }
  }

  lemma SweptAll(n: Net, acc: seq<int>, num: seq<int>, cls: seq<ClassInfo>, dss: seq<seq<int>>, d: seq<int>,
                 state: seq<int>, symlist: seq<int>, dup: seq<int>, dup0: seq<int>, targstate: seq<int>,
                 targfreq: seq<int>, targptr: int, total: int, numecs: int)
    requires Swept(n, acc, num, cls, dss, d, state, symlist, dup, dup0, targstate, targfreq, targptr,
             total, numecs + 1, numecs)
    ensures RowOk(n, acc, num, cls, dss, d, state, numecs) && |symlist| == CSIZE + 1
            && forall e :: 1 <= e <= numecs ==> symlist[e] == 0
    ensures total == |Targets(state, numecs + 1)| && 0 <= targptr <= CSIZE && (total > 0 ==> targptr > 0)
    ensures |targstate| == |targfreq| == CSIZE + 1
    ensures forall i :: 1 <= i <= targptr ==> targfreq[i] >= 1 && targstate[i] >= 1
                                              && Frequent(state, numecs + 1, targstate[i], targfreq[i])
  {
    if total > 0 {
      var e :| e in Targets(state, numecs + 1);
      assert state[e] in targstate[1..targptr + 1];
    }
  }

  lemma BoundedNet(n: Net, l: seq<int>)
    requires Bounded(n, l)
    ensures InNet(n, l)
  {}

  lemma NoneYet(dss: seq<seq<int>>, l: multiset<int>)
    ensures NoneBelow(dss, 1, l)
  {}

  lemma NoneInterned(n: Net, acc: seq<int>)
    ensures Interned(n, acc, [[]], [0], [0], [0])
  {}

  lemma InternedSizes(n: Net, acc: seq<int>, dss: seq<seq<int>>, dfasiz: seq<int>, dhash: seq<int>, dfaacc: seq<int>)
    requires Interned(n, acc, dss, dfasiz, dhash, dfaacc)
    ensures |dss| == |dfasiz| == |dhash| == |dfaacc| >= 1 && forall i :: 1 <= i < |dss| ==> dfasiz[i] == |dss[i]|
  {}

  lemma SortedPart(a: seq<int>, b: seq<int>, n: int)
    requires Permuted(a, b, 1, n + 1) && Ordered(b, 1, n + 1, false) && n >= 0
    ensures multiset(b[1..n + 1]) == multiset(a[1..n + 1]) && Ordered(b[1..n + 1], 0, n, false)
  {}
}
