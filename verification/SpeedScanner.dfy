/** Full-speed scanners as a whole: the rows of the DFA in full-speed tables (dfa.c: ntod; gen.c: genctbl), and scanning
    with them. They find the same longest match as the compressed tables. */
module SpeedScanner {
  import opened Flexdef
  import opened Nets
  import opened Regex
  import opened Abstraction
  import opened Subsets
  import opened Interning
  import opened Compression
  import opened Dfa
  import opened Rules
  import opened Scanner
  import opened Matcher
  import F = FullSpeed

  /** The rows with one for state 0, which has no transitions. */
  ghost function WithZero(rows: seq<seq<int>>, numecs: nat): seq<seq<int>> {
    [seq(numecs + 1, _ => 0)] + rows
  }

  /** Rows that lead to rows. */
  ghost predicate LeadToRows(rows: seq<seq<int>>, numecs: nat) {
    forall s :: 0 <= s < |rows| ==> F.TargetsIn(rows[s], |rows| + 1, numecs)
  }

  /** The tables have the rows made so far, behind the one of state 0. */
  ghost predicate Spread(dfa: DfaBuilder, tables: F.FullTables)
    reads dfa.made, tables
  {
    && tables.Valid() && tables.numecs == dfa.syms.numecs
    && tables.rows == WithZero(dfa.made.rows, dfa.syms.numecs)
  }

  /** ntod for a full-speed scanner: there is no end-of-buffer state, state 0 is placed first, then every row as its
      state. The result is the number of states, start states aside, from which a scanner may have to back up. */
  method NtodSpeed(dfa: DfaBuilder, tables: F.FullTables, starts: seq<int>) returns (numBackingUp: nat)
    requires dfa.Valid() && dfa.fullspd && dfa.Clear() && dfa.lastdfa == 0 && dfa.made.rows == []
    requires StartsFine(dfa.Nfa(), dfa.sets.accptnum, starts)
    requires tables.Valid() && tables.rows == [] && tables.numecs == dfa.syms.numecs && tables !in dfa.comp.Repr
    modifies dfa, dfa.sets, dfa.sets.nset, dfa.sets.stk, dfa.sets.accset, dfa.sets.trans1, dfa.Locals,
             dfa.syms.cclflags, dfa.comp.x`base, dfa.comp.x`def, dfa.made, tables
    ensures dfa.Valid() && |starts| - 1 <= dfa.lastdfa == |dfa.made.rows| && Spread(dfa, tables)
    ensures RowsOk(dfa.Nfa(), dfa.sets.accptnum, dfa.num, dfa.cls, dfa.dss, dfa.made.rows, dfa.syms.numecs)
    ensures Primed(dfa.Nfa(), dfa.sets.accptnum, dfa.dss, starts, 0)
    ensures AllLedTo(dfa.made.rows, |starts|, 0, |dfa.dss|, dfa.syms.numecs)
    ensures numBackingUp == |BackingUp(dfa.sets.accptnum, dfa.dss, |starts|, dfa.lastdfa)|
  {
    hide *;
    StartsMany(dfa.Nfa(), dfa.sets.accptnum, starts);
    dfa.Sizes();
    dfa.Apart();
    Elsewhere(dfa, tables);
    PlaceZero(dfa, tables);
    dfa.MakeStartStates(starts);
    dfa.Sizes();
    dfa.Apart();
    RowsNone(dfa.Nfa(), dfa.sets.accptnum, dfa.num, dfa.cls, dfa.dss, dfa.syms.numecs);
    SpeedPrimed(dfa, starts);
    NoneYetBacks(dfa.sets.accptnum, dfa.dss, |starts|);
    NoneLed(|starts|, 0, |dfa.dss|, dfa.syms.numecs);
    numBackingUp := 0;
    var todoHead, todoNext := 0, dfa.lastdfa;
    while todoHead < todoNext
      invariant 0 <= todoHead <= todoNext == dfa.lastdfa && todoHead == |dfa.made.rows| && |starts| - 1 <= dfa.lastdfa
      invariant dfa.Valid() && dfa.Clear() && Spread(dfa, tables)
      invariant AllLedTo(dfa.made.rows, |starts|, 0, |dfa.dss|, dfa.syms.numecs)
      invariant Primed(dfa.Nfa(), dfa.sets.accptnum, dfa.dss, starts, 0)
      invariant RowsOk(dfa.Nfa(), dfa.sets.accptnum, dfa.num, dfa.cls, dfa.dss, dfa.made.rows, dfa.syms.numecs)
      invariant numBackingUp == |BackingUp(dfa.sets.accptnum, dfa.dss, |starts|, todoHead)|
      invariant dfa.sets.nset == old(dfa.sets.nset) || fresh(dfa.sets.nset)
      invariant dfa.sets.stk == old(dfa.sets.stk) || fresh(dfa.sets.stk)
      decreases |Universe(dfa.Nfa().last, 2 * dfa.Nfa().last)| - todoHead
    {
      todoHead := todoHead + 1;
      dfa.Sizes();
      ghost var dss0 := dfa.dss;
      SpeedRow(dfa, tables, todoHead, starts);
      dfa.Sizes();
      var backs := BacksUp(dfa, todoHead, |starts|, dss0);
      if backs { numBackingUp := numBackingUp + 1; }
      todoNext := dfa.lastdfa;
      dfa.Finite();
    }
  }

  /** The states from lo to hi that do not accept. */
  ghost function BackingUp(acc: seq<int>, dss: seq<seq<int>>, lo: int, hi: int): set<int> {
    set d | lo <= d <= hi && 0 <= d < |dss| && Lowest(acc, dss[d], 0)
  }

  /** No state from lo to hi but accepts. */
  ghost predicate NoneBacksUp(acc: seq<int>, dss: seq<seq<int>>, lo: int, hi: int) {
    forall d :: lo <= d <= hi && 0 <= d < |dss| ==> !Lowest(acc, dss[d], 0)
  }

  lemma NoneYetBacks(acc: seq<int>, dss: seq<seq<int>>, lo: int)
    requires lo >= 1
    ensures BackingUp(acc, dss, lo, 0) == {}
  {}

  lemma OneMoreBacks(acc: seq<int>, dss0: seq<seq<int>>, dss: seq<seq<int>>, lo: int, d: int)
    requires dss0 <= dss && 1 <= d < |dss0|
    ensures BackingUp(acc, dss, lo, d)
            == BackingUp(acc, dss0, lo, d - 1) + if d >= lo && Lowest(acc, dss[d], 0) then {d} else {}
    ensures d !in BackingUp(acc, dss0, lo, d - 1)
  {
    hide Lowest;
  }

  lemma NobodyBacks(acc: seq<int>, dss: seq<seq<int>>, lo: int, hi: int)
    ensures BackingUp(acc, dss, lo, hi) == {} <==> NoneBacksUp(acc, dss, lo, hi)
  {
    hide Lowest;
    forall d | lo <= d <= hi && 0 <= d < |dss|
      ensures d in BackingUp(acc, dss, lo, hi) <==> Lowest(acc, dss[d], 0)
    {}
  }

  /** check_for_backing_up. */
  method BacksUp(dfa: DfaBuilder, ds: int, starts: nat, ghost dss0: seq<seq<int>>) returns (backs: bool)
    requires dfa.Records() && dss0 <= dfa.dss && 1 <= ds < |dss0|
    ensures |BackingUp(dfa.sets.accptnum, dfa.dss, starts, ds)|
            == |BackingUp(dfa.sets.accptnum, dss0, starts, ds - 1)| + if backs then 1 else 0
    ensures backs <==> ds >= starts && Lowest(dfa.sets.accptnum, dfa.dss[ds], 0)
  {
    hide Lowest, BackingUp, Bounded;
    OneMoreBacks(dfa.sets.accptnum, dss0, dfa.dss, starts, ds);
    InternedSizes(dfa.Nfa(), dfa.sets.accptnum, dfa.dss, dfa.dfasiz, dfa.dhash, dfa.dfaacc);
    assert RecordOk(dfa.Nfa(), dfa.sets.accptnum, dfa.dss[ds], dfa.dhash[ds], dfa.dfaacc[ds]);
    OneLowest(dfa.sets.accptnum, dfa.dss[ds], dfa.dfaacc[ds]);
    return ds >= starts && dfa.dfaacc[ds] == 0;
  }

  lemma OneLowest(acc: seq<int>, l: seq<int>, a: int)
    requires Lowest(acc, l, a)
    ensures Lowest(acc, l, 0) <==> a == 0
  {}

  lemma SpeedPrimed(dfa: DfaBuilder, starts: seq<int>)
    requires 1 <= |starts| <= |dfa.dss| && dfa.Started(starts, |starts| - 1)
    ensures Primed(dfa.Nfa(), dfa.sets.accptnum, dfa.dss, starts, 0)
  {
    hide ClosureOf;
  }

  lemma Elsewhere(dfa: DfaBuilder, tables: F.FullTables)
    ensures tables !in dfa.Locals && dfa.made !in dfa.Locals && dfa !in dfa.Locals && dfa.sets !in dfa.Locals
  {}

  /** The empty row of state 0. */
  method PlaceZero(dfa: DfaBuilder, tables: F.FullTables)
    requires tables.Valid() && tables.rows == [] && tables.numecs == dfa.syms.numecs && dfa.made.rows == []
    modifies tables
    ensures Spread(dfa, tables)
  {
    hide F.FullTables.Stored;
    tables.GrowBase(0);
    tables.PlaceState(seq(tables.numecs + 1, _ => 0), 0, 0);
  }

  /** One round of the worklist. */
  method SpeedRow(dfa: DfaBuilder, tables: F.FullTables, ds: int, starts: seq<int>)
    requires dfa.Valid() && dfa.fullspd && dfa.Clear() && ds == |dfa.made.rows| + 1 <= dfa.lastdfa
    requires Spread(dfa, tables) && tables !in dfa.comp.Repr
    requires AllLedTo(dfa.made.rows, |starts|, 0, |dfa.dss|, dfa.syms.numecs)
    requires Primed(dfa.Nfa(), dfa.sets.accptnum, dfa.dss, starts, 0)
    requires RowsOk(dfa.Nfa(), dfa.sets.accptnum, dfa.num, dfa.cls, dfa.dss, dfa.made.rows, dfa.syms.numecs)
    modifies dfa, dfa.sets, dfa.sets.nset, dfa.sets.stk, dfa.sets.accset, dfa.sets.trans1, dfa.Locals,
             dfa.syms.cclflags, dfa.comp.x`base, dfa.comp.x`def, dfa.made, tables
    ensures dfa.Valid() && dfa.Clear() && Spread(dfa, tables) && ds == |dfa.made.rows| <= dfa.lastdfa
    ensures old(dfa.dss) <= dfa.dss && dfa.Records()
    ensures AllLedTo(dfa.made.rows, |starts|, 0, |dfa.dss|, dfa.syms.numecs)
    ensures Primed(dfa.Nfa(), dfa.sets.accptnum, dfa.dss, starts, 0)
    ensures RowsOk(dfa.Nfa(), dfa.sets.accptnum, dfa.num, dfa.cls, dfa.dss, dfa.made.rows, dfa.syms.numecs)
    ensures dfa.sets.nset == old(dfa.sets.nset) || fresh(dfa.sets.nset)
    ensures dfa.sets.stk == old(dfa.sets.stk) || fresh(dfa.sets.stk)
  {
    hide *;
    ghost var dss0, rows0 := dfa.dss, dfa.made.rows;
    ghost var n, acc, numecs := dfa.Nfa(), dfa.sets.accptnum, dfa.syms.numecs;
    dfa.Sizes();
    dfa.Apart();
    Elsewhere(dfa, tables);
    var _, total := dfa.MakeRow(ds);
    dfa.Sizes();
    dfa.Apart();
    dfa.Parts();
    RowsKept(n, acc, dfa.num, dfa.cls, dss0, dfa.dss, rows0, numecs);
    PrimedKept(n, acc, dss0, dfa.dss, starts, 0);
    RowReady(n, acc, dfa.num, dfa.cls, dfa.dss, dfa.dss[ds], dfa.state[..], numecs);
    PlaceRow(dfa, tables, ds, total, dfa.state[..numecs + 1]);
    dfa.made.rows := rows0 + [dfa.state[..numecs + 1]];
    RowsMore(n, acc, dfa.num, dfa.cls, dfa.dss, rows0, dfa.state[..numecs + 1], numecs);
    SpreadNow(dfa, tables, rows0, dfa.state[..numecs + 1]);
    StateLong(n, acc, dfa.num, dfa.cls, dfa.dss, dfa.dss[ds], dfa.state[..], numecs);
    FreshHere(|dss0|, |dfa.dss|, dfa.state[..], numecs);
    EnteredNow(rows0, dfa.state[..numecs + 1], numecs);
    LedMore(rows0, dfa.made.rows, dfa.state[..numecs + 1], |starts|, 0, |dss0|, |dfa.dss|, numecs);
    dfa.Together();
  }

  /** The row becomes that of state ds. */
  method PlaceRow(dfa: DfaBuilder, tables: F.FullTables, ds: int, total: int, ghost row: seq<int>)
    requires Spread(dfa, tables) && ds == |dfa.made.rows| + 1 && dfa.Lists() && dfa.syms.numecs <= CSIZE
    requires row == dfa.state[..dfa.syms.numecs + 1] && IsRow(row, dfa.syms.numecs)
    modifies tables
    ensures tables.Valid() && tables.rows == WithZero(dfa.made.rows, dfa.syms.numecs) + [row]
    ensures tables.numecs == dfa.syms.numecs
  {
    hide F.FullTables.Stored;
    tables.GrowBase(ds);
    tables.PlaceState(dfa.state[..tables.numecs + 1], ds, total);
  }

  lemma SpreadNow(dfa: DfaBuilder, tables: F.FullTables, rows0: seq<seq<int>>, row: seq<int>)
    requires tables.Valid() && tables.numecs == dfa.syms.numecs && dfa.made.rows == rows0 + [row]
    requires tables.rows == WithZero(rows0, dfa.syms.numecs) + [row]
    ensures Spread(dfa, tables)
  {
    hide F.FullTables.Stored;
  }

  lemma ZeroTargets(rows: seq<seq<int>>, numecs: nat)
    requires LeadToRows(rows, numecs)
    ensures F.Targets(WithZero(rows, numecs), numecs) && F.RowsFine(WithZero(rows, numecs), numecs)
  {
    var all := WithZero(rows, numecs);
    forall s | 0 <= s < |all| ensures F.TargetsIn(all[s], |all|, numecs) {
      if s > 0 { assert F.TargetsIn(rows[s - 1], |rows| + 1, numecs); }
    }
  }

  // ----- scanning

  /** The rows of a finished DFA lead to rows. */
  lemma DfaClosed(b: Build)
    requires DfaSide(b) && forall s :: 0 <= s < |b.rows| ==> |b.rows[s]| == b.numecs + 1
    ensures LeadToRows(b.rows, b.numecs)
  {
    hide RowsOk, Primed, Lowest;
    RowsClosed(b.s.net, b.s.accptnum, b.num, b.ecls, b.dss, b.rows, b.numecs);
  }

  lemma RowsClosed(n: Net, acc: seq<int>, num: seq<int>, cls: seq<ClassInfo>, dss: seq<seq<int>>, rows: seq<seq<int>>,
                   numecs: nat)
    requires RowsOk(n, acc, num, cls, dss, rows, numecs) && |dss| == |rows| + 1
    requires forall s :: 0 <= s < |rows| ==> |rows[s]| == numecs + 1
    ensures LeadToRows(rows, numecs)
  {
    forall s | 0 <= s < |rows| ensures F.TargetsIn(rows[s], |rows| + 1, numecs) {
      assert RowOk(n, acc, num, cls, dss, dss[s + 1], rows[s], numecs);
      forall c | 1 <= c <= numecs ensures 0 <= rows[s][c] < |rows| + 1 {
        assert RowAt(n, acc, num, cls, dss, dss[s + 1], c, rows[s][c]);
      }
    }
  }

  lemma {:induction false} GoIsRun(b: Build, i: int, e: seq<int>)
    requires 1 <= i <= |b.rows| && InClasses(e, b.numecs)
    ensures F.Go(WithZero(b.rows, b.numecs), i, e) == Run(b.rows, i, e)
  {
    if e != [] { GoIsRun(b, i, e[..|e| - 1]); }
  }

  ghost predicate ClassTable(b: Build, yyEc: seq<int>) {
    && 0 < b.csize == |yyEc| <= |b.num| && (forall ch :: 1 <= ch < b.csize ==> yyEc[ch] == Ec(b.num, ch))
    && (forall ch :: 0 <= ch < b.csize ==> 1 <= Ec(b.num, ch) <= b.numecs)
  }

  /** What the table has for the state after j characters is the number of the first rule. */
  lemma SpeedAccept(b: Build, dfaacc: seq<int>, yyEc: seq<int>, i: int, text: seq<int>, j: int)
    requires NfaSide(b) && DfaSide(b) && 1 <= i < |b.starts| && IsText(b, text) && ClassTable(b, yyEc)
             && 0 <= j <= |text|
    requires |dfaacc| == |b.dfaacc| && forall d :: 1 <= d < |dfaacc| ==> dfaacc[d] == b.dfaacc[d]
    ensures FirstRule(b, i, text[..j], F.AcceptAt(WithZero(b.rows, b.numecs), dfaacc, |b.rules|,
            i, EcWord(b.num, text), j))
    ensures F.Go(WithZero(b.rows, b.numecs), i, EcWord(b.num, text)[..j]) == 0
            <==> Stuck(b, i, EcWord(b.num, text[..j]))
  {
    hide NfaSide, DfaSide, Models, FirstRule;
    var w := text[..j];
    var e := EcWord(b.num, w);
    assert EcWord(b.num, text)[..j] == e;
    StartRows(b, i);
    GoIsRun(b, i, e);
    RunMeans(b, i, e);
    RunStuck(b, i, e);
    if Stuck(b, i, e) { StuckNoRule(b, i, w); } else { RunAccepts(b, i, w); }
  }

  lemma StartRows(b: Build, i: int)
    requires NfaSide(b) && DfaSide(b) && 1 <= i < |b.starts|
    ensures 1 <= i <= |b.rows|
  {
    hide NfaSide, RowsOk;
  }

  lemma RunAccepts(b: Build, i: int, w: seq<int>)
    requires NfaSide(b) && DfaSide(b) && 1 <= i < |b.starts| && IsText(b, w)
             && RunsTo(b, i, EcWord(b.num, w), Run(b.rows, i, EcWord(b.num, w)))
    requires Run(b.rows, i, EcWord(b.num, w)) != 0
    ensures var d := Run(b.rows, i, EcWord(b.num, w)); 1 <= d < |b.dfaacc| && FirstRule(b, i, w, b.dfaacc[d])
  {
    hide NfaSide, FirstRule, Models, RowsOk, Primed;
    var d := Run(b.rows, i, EcWord(b.num, w));
    AcceptMeans(b, i, w, b.dss[d], b.dfaacc[d]);
  }

  /** After a character the DFA is in none of the start states: no symbol leads to the state of the NFA that only they
      hold. */
  lemma RunLeaves(b: Build, i: int, e: seq<int>)
    requires NfaSide(b) && DfaSide(b) && 1 <= i < |b.starts| && InClasses(e, b.numecs) && e != []
    ensures Run(b.rows, i, e) == 0 || Run(b.rows, i, e) >= |b.starts|
  {
    hide NfaSide, DfaSide, Models;
    var k := |e| - 1;
    RunMeans(b, i, e[..k]);
    RunMeans(b, i, e);
    var d, v := Run(b.rows, i, e[..k]), Run(b.rows, i, e);
    if v != 0 { StepLeaves(b, d, e[k], v); }
  }

  lemma StepLeaves(b: Build, d: int, c: int, v: int)
    requires NfaSide(b) && DfaSide(b) && 1 <= d <= |b.rows| && 1 <= c <= b.numecs && c < |b.rows[d - 1]|
    requires v == b.rows[d - 1][c] != 0
    ensures v >= |b.starts|
  {
    hide Abstracts, Complete, Means, EcMatches;
    var n, acc := b.s.net, b.s.accptnum;
    assert RowOk(n, acc, b.num, b.ecls, b.dss, b.dss[d], b.rows[d - 1], b.numecs);
    assert RowAt(n, acc, b.num, b.ecls, b.dss, b.dss[d], c, v);
    if 1 <= v < |b.starts| {
      var st, f := b.starts[v], Follow(n, b.num, b.ecls, b.dss[d], c);
      assert Plain(b.s, st);
      assert st in multiset([st]);
      assert st in multiset(b.dss[v]);
      assert st !in NewMembers(n, acc, Members(f));
      assert st in multiset(f);
      InFollow(n, b.num, b.ecls, b.dss[d], c, st);
    }
  }

  /** A full-speed scanner: its table, where its states begin, and whether it can back up. */
  class SpeedLexer {
    const trans: seq<F.TransInfo>
    const startList: seq<int>
    const yyEc: seq<int>
    const numRules: int
    const backUp: bool
    ghost const b: Build
    ghost const base: seq<int>

    ghost predicate Valid() {
      && NfaSide(b) && DfaSide(b) && ClassTable(b, yyEc) && numRules == |b.rules| && b.eob == 0
      && (forall s :: 0 <= s < |b.rows| ==> |b.rows[s]| == b.numecs + 1)
      && F.Decodes(trans, base, WithZero(b.rows, b.numecs), b.dfaacc, b.numecs, numRules)
      && (backUp <==> !NoneBacksUp(b.s.accptnum, b.dss, |b.starts|, |b.rows|))
      && |startList| == |b.starts| <= |base| && forall i :: 1 <= i < |startList| ==> startList[i] == base[i]
    }

    constructor (trans: seq<F.TransInfo>, startList: seq<int>, yyEc: seq<int>, numRules: int, backUp: bool,
                 ghost b: Build, ghost base: seq<int>)
      requires NfaSide(b) && DfaSide(b) && ClassTable(b, yyEc) && numRules == |b.rules| && b.eob == 0
      requires forall s :: 0 <= s < |b.rows| ==> |b.rows[s]| == b.numecs + 1
      requires F.Decodes(trans, base, WithZero(b.rows, b.numecs), b.dfaacc, b.numecs, numRules)
      requires backUp <==> !NoneBacksUp(b.s.accptnum, b.dss, |b.starts|, |b.rows|)
      requires |startList| == |b.starts| <= |base| && forall i :: 1 <= i < |startList| ==> startList[i] == base[i]
      ensures Valid() && this.b == b && this.trans == trans
    {
      this.trans, this.startList, this.yyEc, this.numRules, this.backUp := trans, startList, yyEc, numRules, backUp;
      this.b, this.base := b, base;
    }

    /** The match loop of a full-speed scanner, from start state i at the beginning of a text without NUL: the longest
        match, or the end of the buffer where a longer match is still possible. */
    method SpeedScan(i: int, text: seq<int>) returns (act: int, len: int)
      requires Valid() && 1 <= i < |b.starts| && HasDefault(b, i) && IsText(b, text) && NoNul(text, 0, |text|)
      ensures if Stuck(b, i, EcWord(b.num, text)) then
                Longest(b, i, text, act, len)
              else
                act == numRules + 1 && len == |text| + 1
    {
      hide NfaSide, DfaSide, F.Decodes, F.RowsFine, F.AcceptAt, F.Go, Stuck, FirstRule, HasDefault, F.NeverBack,
           NoneBacksUp;
      var classes := seq(|text|, k requires 0 <= k < |text| => yyEc[text[k]]);
      ghost var rows := WithZero(b.rows, b.numecs);
      assert classes == EcWord(b.num, text);
      StartRows(b, i);
      DfaClosed(b);
      ZeroTargets(b.rows, b.numecs);
      forall j | 0 <= j <= |text|
        ensures FirstRule(b, i, text[..j], F.AcceptAt(rows, b.dfaacc, |b.rules|, i, classes, j))
      {
        SpeedAccept(b, b.dfaacc, yyEc, i, text, j);
      }
      SpeedAccept(b, b.dfaacc, yyEc, i, text, |text|);
      assert text[..|text|] == text && classes[..|text|] == classes;
      if text != [] { DefaultMatches(b, i, text); }
      if !backUp { NoBacking(b, i, classes); }
      act, len := F.SpeedMatch(trans, startList[i], classes, backUp, base, rows, b.dfaacc, b.numecs, numRules, i);
      if act != numRules + 1 || len != |text| + 1 { FirstNumber(b, i, text[..len], act); }
    }
  }

  /** Where all states but the start states accept there is no need to back up. */
  lemma NoBacking(b: Build, i: int, classes: seq<int>)
    requires NfaSide(b) && DfaSide(b) && 1 <= i < |b.starts| && InClasses(classes, b.numecs)
    requires NoneBacksUp(b.s.accptnum, b.dss, |b.starts|, |b.rows|)
    ensures F.NeverBack(WithZero(b.rows, b.numecs), b.dfaacc, |b.rules|, i, classes)
  {
    hide NfaSide, DfaSide;
    StartRows(b, i);
    forall j | 1 <= j <= |classes| && F.Go(WithZero(b.rows, b.numecs), i, classes[..j]) != 0
      ensures F.AcceptAt(WithZero(b.rows, b.numecs), b.dfaacc, |b.rules|, i, classes, j) != 0
    {
      GoIsRun(b, i, classes[..j]);
      RunLeaves(b, i, classes[..j]);
      RunMeans(b, i, classes[..j]);
      AcceptsThere(b, Run(b.rows, i, classes[..j]));
    }
  }

  lemma AcceptsThere(b: Build, d: int)
    requires DfaSide(b) && |b.starts| <= d <= |b.rows| && 1 <= d
    requires NoneBacksUp(b.s.accptnum, b.dss, |b.starts|, |b.rows|)
    ensures d < |b.dfaacc| && b.dfaacc[d] != 0
  {
    hide RowsOk, Primed;
    OneLowest(b.s.accptnum, b.dss[d], b.dfaacc[d]);
  }
}
