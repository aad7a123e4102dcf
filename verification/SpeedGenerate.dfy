/** The generator for full-speed scanners, with equivalence classes (main.c: main, readin; dfa.c: ntod; gen.c:
    genctbl): from the rules to a scanner. */
module SpeedGenerate {
  import opened Flexdef
  import opened Results
  import opened Nets
  import opened Ccl
  import opened Nfa
  import opened Regex
  import opened Patterns
  import opened Divisions
  import opened Rules
  import opened Abstraction
  import Closure
  import opened StateSets
  import opened Partition
  import opened Interning
  import opened Compression
  import opened Dfa
  import opened Scanner
  import opened Prefixes
  import opened Matcher
  import opened Generate
  import opened SpeedScanner
  import F = FullSpeed

  /** What ntod leaves for a full-speed scanner. */
  ghost predicate SpeedMade(n: Net, acc: seq<int>, starts: seq<int>, num: seq<int>, cls: seq<ClassInfo>, numecs: nat,
                            dss: seq<seq<int>>, dfaacc: seq<int>, rows: seq<seq<int>>) {
    && |dss| == |dfaacc| == |rows| + 1 && |starts| - 1 <= |rows|
    && RowsOk(n, acc, num, cls, dss, rows, numecs) && Primed(n, acc, dss, starts, 0)
    && (forall i :: 1 <= i < |dss| ==> Closure.InNet(n, dss[i]) && Lowest(acc, dss[i], dfaacc[i]))
    && (forall s :: 0 <= s < |rows| ==> |rows[s]| == numecs + 1) && AllLedTo(rows, |starts|, 0, |dss|, numecs)
  }

  lemma SpeedSides(b: Build)
    requires RulesDone(b.s, b.infos, b.rules, b.starts, b.on, b.cls, b.csize)
    requires Generate.Numbers(b.s.net, b.num, b.before, b.csize, b.numecs, b.cls, b.ecls)
    requires SpeedMade(b.s.net, b.s.accptnum, b.starts, b.num, b.ecls, b.numecs, b.dss, b.dfaacc, b.rows) && b.eob == 0
    ensures NfaSide(b) && DfaSide(b) && |b.rows| + 1 == |b.dfaacc|
    ensures forall s :: 0 <= s < |b.rows| ==> |b.rows[s]| == b.numecs + 1
  {
    hide Complete, Means, AllAttached, Abstracts, RowsOk, Primed, Closure.InNet, Lowest, LabelsOk, EcClassesOk;
  }

  lemma SpeedReached(b: Build)
    requires RulesDone(b.s, b.infos, b.rules, b.starts, b.on, b.cls, b.csize)
    requires Generate.Numbers(b.s.net, b.num, b.before, b.csize, b.numecs, b.cls, b.ecls)
    requires SpeedMade(b.s.net, b.s.accptnum, b.starts, b.num, b.ecls, b.numecs, b.dss, b.dfaacc, b.rows) && b.eob == 0
    ensures AllReached(b)
  {
    hide RulesDone, Generate.Numbers, RowsOk, Primed, Closure.InNet, Lowest, AllLedTo, NfaSide, DfaSide, AllReached;
    SpeedSides(b);
    EveryState(b);
  }

  lemma SpeedEcs(b: Build, yyEc: seq<int>)
    requires Generate.Numbers(b.s.net, b.num, b.before, b.csize, b.numecs, b.cls, b.ecls)
    requires |yyEc| == b.csize && forall ch :: 1 <= ch < b.csize ==> yyEc[ch] == Ec(b.num, ch)
    ensures ClassTable(b, yyEc)
  {
    hide LabelsOk, EcClassesOk;
    EcsPositive(b.s.net, b.num, b.before, b.csize, b.numecs, b.cls, b.ecls);
  }

  lemma SpreadFacts(dfa: DfaBuilder, tables: F.FullTables)
    requires Spread(dfa, tables)
    ensures tables.Valid() && tables.numecs == dfa.syms.numecs
    ensures |tables.rows| == |dfa.made.rows| + 1 && tables.rows == WithZero(dfa.made.rows, dfa.syms.numecs)
  {
    hide F.FullTables.Stored;
  }

  /** The rows in a table are complete, and they lead to rows. */
  lemma SpeedClosed(dfa: DfaBuilder, tables: F.FullTables)
    requires dfa.Valid() && Spread(dfa, tables) && dfa.lastdfa == |dfa.made.rows|
    requires RowsOk(dfa.Nfa(), dfa.sets.accptnum, dfa.num, dfa.cls, dfa.dss, dfa.made.rows, dfa.syms.numecs)
    ensures |dfa.dfaacc| == dfa.lastdfa + 1 && F.Targets(tables.rows, tables.numecs) && |tables.rows| <= |tables.base|
    ensures forall s :: 0 <= s < |dfa.made.rows| ==> |dfa.made.rows[s]| == dfa.syms.numecs + 1
  {
    hide RowsOk, Interned, Compressor.Valid, Symbols.Valid, StateSet.Valid, DfaBuilder.NfaFine, F.AllOwned, F.Frontier,
         LeadToRows, F.Targets;
    var rows, numecs := dfa.made.rows, dfa.syms.numecs;
    InternedSizes(dfa.Nfa(), dfa.sets.accptnum, dfa.dss, dfa.dfasiz, dfa.dhash, dfa.dfaacc);
    forall s | 0 <= s < |rows| ensures |rows[s]| == numecs + 1 {
      assert tables.rows[s + 1] == rows[s];
      assert F.Placed(tables.base, tables.rows, tables.own, tables.numecs, tables.tblend, s + 1);
    }
    RowsClosed(dfa.Nfa(), dfa.sets.accptnum, dfa.num, dfa.cls, dfa.dss, rows, numecs);
    ZeroTargets(rows, numecs);
  }

  /** ntod and genctbl: the rows of the DFA in a table. */
  method MakeSpeedTable(dfa: DfaBuilder, starts: seq<int>, numRules: int)
    returns (trans: seq<F.TransInfo>, startList: seq<int>, declared: int, backUp: bool, ghost base: seq<int>)
    requires dfa.Valid() && dfa.fullspd && dfa.Clear() && dfa.lastdfa == 0 && dfa.made.rows == []
    requires StartsFine(dfa.Nfa(), dfa.sets.accptnum, starts)
    modifies dfa, dfa.sets, dfa.sets.nset, dfa.sets.stk, dfa.sets.accset, dfa.sets.trans1, dfa.Locals,
             dfa.syms.cclflags, dfa.comp.x`base, dfa.comp.x`def, dfa.made
    ensures SpeedMade(dfa.Nfa(), dfa.sets.accptnum, starts, dfa.num, dfa.cls, dfa.syms.numecs, dfa.dss, dfa.dfaacc,
                      dfa.made.rows)
    ensures backUp <==> !NoneBacksUp(dfa.sets.accptnum, dfa.dss, |starts|, |dfa.made.rows|)
    ensures F.Decodes(trans, base, WithZero(dfa.made.rows, dfa.syms.numecs), dfa.dfaacc, dfa.syms.numecs, numRules)
    ensures |trans| <= declared <==> dfa.syms.numecs >= 2
    ensures |startList| == |starts| <= |base| && forall i :: 1 <= i < |startList| ==> startList[i] == base[i]
  {
    hide *;
    dfa.Sizes();
    StartsMany(dfa.Nfa(), dfa.sets.accptnum, starts);
    var tables := new F.FullTables(dfa.syms.numecs);
    var numBackingUp := NtodSpeed(dfa, tables, starts);
    SpreadFacts(dfa, tables);
    SpeedClosed(dfa, tables);
    SpeedDone(dfa, starts);
    trans, declared := tables.GenCtbl(dfa.dfaacc, dfa.lastdfa, numRules);
    base := tables.base;
    startList := tables.base[..|starts|];
    backUp := numBackingUp > 0;
    NobodyBacks(dfa.sets.accptnum, dfa.dss, |starts|, dfa.lastdfa);
  }

  lemma SpeedDone(dfa: DfaBuilder, starts: seq<int>)
    requires dfa.Valid() && |starts| - 1 <= dfa.lastdfa == |dfa.made.rows|
    requires RowsOk(dfa.Nfa(), dfa.sets.accptnum, dfa.num, dfa.cls, dfa.dss, dfa.made.rows, dfa.syms.numecs)
    requires Primed(dfa.Nfa(), dfa.sets.accptnum, dfa.dss, starts, 0)
    requires AllLedTo(dfa.made.rows, |starts|, 0, |dfa.dss|, dfa.syms.numecs)
    requires forall s :: 0 <= s < |dfa.made.rows| ==> |dfa.made.rows[s]| == dfa.syms.numecs + 1
    ensures SpeedMade(dfa.Nfa(), dfa.sets.accptnum, starts, dfa.num, dfa.cls, dfa.syms.numecs, dfa.dss, dfa.dfaacc,
                      dfa.made.rows)
  {
    hide RowsOk, Primed, Interned, Compressor.Valid, Symbols.Valid, StateSet.Valid, DfaBuilder.NfaFine, Closure.InNet,
         Lowest;
    RecordsDone(dfa.Nfa(), dfa.sets.accptnum, dfa.dss, dfa.dfasiz, dfa.dhash, dfa.dfaacc);
  }

  /** ntod on a fresh DFA, for a full-speed scanner. */
  method BuildSpeedTable(nfa: NfaBuilder, numRules: int, starts: seq<int>, numecs: nat, nulEc: int)
    returns (trans: seq<F.TransInfo>, startList: seq<int>, declared: int, backUp: bool, ghost base: seq<int>,
             ghost dss: seq<seq<int>>, ghost dfaacc: seq<int>, ghost rows: seq<seq<int>>)
    requires Ready(nfa) && Prepared(nfa.State().net, nfa.accptnum, numRules, starts, nfa.ecgroup[..],
             EcClasses(nfa.ccls, nulEc), nfa.csize, numecs)
    requires nulEc == Ec(nfa.ecgroup[..], 0)
    modifies nfa.cclflags
    ensures SpeedMade(nfa.State().net, nfa.accptnum, starts, nfa.ecgroup[..], EcClasses(nfa.ccls, nulEc), numecs,
                      dss, dfaacc, rows)
    ensures backUp <==> !NoneBacksUp(nfa.accptnum, dss, |starts|, |rows|)
    ensures F.Decodes(trans, base, WithZero(rows, numecs), dfaacc, numecs, numRules)
    ensures |trans| <= declared <==> numecs >= 2
    ensures |startList| == |starts| <= |base| && forall i :: 1 <= i < |startList| ==> startList[i] == base[i]
  {
    hide *;
    PreparedStarts(nfa.State().net, nfa.accptnum, numRules, starts, nfa.ecgroup[..], EcClasses(nfa.ccls, nulEc),
        nfa.csize, numecs);
    ReadyApart(nfa);
    var dfa := Prepare(nfa, numRules, starts, numecs, nulEc, false, true);
    dfa.Apart();
    trans, startList, declared, backUp, base := MakeSpeedTable(dfa, starts, numRules);
    dss, dfaacc, rows := dfa.dss, dfa.dfaacc, dfa.made.rows;
  }

  /** From the NFA with its start states to a full-speed scanner. The size that genctbl declares for the table is large
      enough for what it writes exactly when the rules tell some characters apart. */
  method MakeSpeedLexer(nfa: NfaBuilder, numRules: int, starts: seq<int>, ghost infos: seq<Info>,
                        ghost rules: seq<Rule>, ghost on: seq<set<int>>)
    returns (lexer: SpeedLexer, declared: int)
    requires nfa.Valid() && numRules == |rules| && AsTold(nfa.ecgroup[..], nfa.csize, rules)
    requires RulesDone(nfa.State(), infos, rules, starts, on, Classes(nfa.ccls), nfa.csize)
    modifies nfa.ecgroup, nfa.cclflags, nfa.ccls`ccllen, nfa.ccls.ccltbl
    ensures lexer.Valid() && lexer.b.rules == rules && lexer.b.on == on && lexer.b.csize == nfa.csize
            && lexer.b.starts == starts
    ensures EcsAsTold(lexer.b.num, nfa.csize, rules) && AllReached(lexer.b)
    ensures |lexer.trans| <= declared <==> !NoneTold(rules, nfa.csize)
  {
    hide *;
    NfaReady(nfa);
    ghost var cls, before := Classes(nfa.ccls), nfa.ecgroup[..];
    var numecs, nulEc := NumberClasses(nfa);
    ghost var s, num, ecls := nfa.State(), nfa.ecgroup[..], EcClasses(nfa.ccls, nulEc);
    RulesDecide(before, num, nfa.csize, numecs, rules);
    RulesFacts(s, infos, rules, starts, on, cls, nfa.csize);
    NumbersFacts(s.net, num, before, nfa.csize, numecs, cls, ecls);
    NowPrepared(s.net, s.accptnum, numRules, starts, num, ecls, nfa.csize, numecs);
    NowReady(nfa);
    ReadyApart(nfa);
    StateIs(nfa);
    var trans, startList, backUp;
    ghost var base, dss, dfaacc, rows;
    trans, startList, declared, backUp, base, dss, dfaacc, rows :=
      BuildSpeedTable(nfa, numRules, starts, numecs, nulEc);
    ghost var b := Build(s, num, before, nfa.csize, numecs, cls, ecls, infos, rules, starts, on, dss, dfaacc, rows,
                         [], false, [], 0, map[], map[], [], []);
    var yyEc := GenEcs(nfa.ecgroup, nfa.csize);
    SpeedSides(b);
    SpeedReached(b);
    SpeedEcs(b, yyEc);
    lexer := new SpeedLexer(trans, startList, yyEc, numRules, backUp, b, base);
  }

  /** The whole generator for full-speed scanners: the default rule is added, the start states are made, and the scanner
      is built. */
  method BuildSpeedScanner(rs: RuleSet) returns (r: Result<SpeedLexer>, declared: int)
    requires rs.Valid()
    modifies rs.Repr, rs.nfa.ccls.ccltbl
    ensures r.Success? <==> Buildable(old(rs.nfa.lastnfa), old(rs.rules), old(rs.lastsc))
    ensures r.Failure? ==> Unbuildable(r.error, old(rs.nfa.lastnfa), old(rs.rules), old(rs.lastsc))
    ensures r.Success? ==> r.value.Valid() && r.value.b.csize == rs.nfa.csize && old(rs.lastsc) >= 0
    ensures r.Success? ==> r.value.b.rules == old(rs.rules) + [DefaultRule(old(rs.lastsc))]
    ensures r.Success? ==> |r.value.b.starts| == 2 * old(rs.lastsc) + 1
    ensures r.Success? ==> r.value.b.on == StartSets(r.value.b.rules, old(rs.scxclu), old(rs.lastsc))
    ensures r.Success? ==> forall i :: 1 <= i < |r.value.b.starts| ==> HasDefault(r.value.b, i)
    ensures r.Success? ==> EcsAsTold(r.value.b.num, r.value.b.csize, r.value.b.rules) && AllReached(r.value.b)
    ensures r.Success? ==> (|r.value.trans| <= declared <==> !NoneTold(r.value.b.rules, r.value.b.csize))
  {
    hide StartsOk, AsWanted, Means, Complete, AllAttached, NfaBuilder.CharsOk, SpeedLexer.Valid, HasDefault,
         Proper, Wanted, RulesDone, IsAny, Complained, AsTold, EcsAsTold, NoneTold, AllReached;
    ghost var rules0, lastsc, scxclu, last := rs.rules, rs.lastsc, rs.scxclu, rs.nfa.lastnfa;
    declared := 0;
    DefaultProper(lastsc);
    ComplainedMore(rules0, DefaultRule(lastsc));
    var added := rs.AddRule(DefaultRule(rs.lastsc));
    if added.Failure? {
      DefaultRefused(added.error, last, rules0, lastsc, scxclu, rs.nfa.csize);
      return Failure(added.error), declared;
    }
    DefaultRead(last, rs.nfa.lastnfa, rules0, lastsc, scxclu, rs.nfa.csize);
    if rs.pc.syntaxerror { return Failure(SyntaxError), declared; }
    var starts :- rs.MakeStarts();
    ghost var on := StartSets(rs.rules, scxclu, lastsc);
    NowRulesDone(rs.nfa.State(), rs.infos, rs.rules, starts, on, Classes(rs.nfa.ccls), rs.nfa.csize);
    var lexer;
    lexer, declared := MakeSpeedLexer(rs.nfa, rs.numRules, starts, rs.infos, rs.rules, on);
    forall i | 1 <= i < |lexer.b.starts| ensures HasDefault(lexer.b, i) {
      DefaultEverywhere(lexer.b, rules0, scxclu, lastsc, i);
    }
    return Success(lexer), declared;
  }

  /** Without rules of the user's there is only the default rule, which tells no characters apart. */
  lemma DefaultAlone(lastsc: nat, csize: int)
    ensures NoneTold([DefaultRule(lastsc)], csize)
  {
    var rules := [DefaultRule(lastsc)];
    forall c, d, k | 0 <= c < csize && 0 <= d < csize && 0 <= k < |rules| ensures !Tells(Pattern(rules[k]), c, d) {
      assert rules[k] == DefaultRule(lastsc);
    }
  }

  /** A full-speed scanner without rules: its table has more entries than are declared for it. */
  method OneClass(csize: int) returns (lexer: SpeedLexer, declared: int)
    requires csize == 128 || csize == CSIZE
    ensures lexer.Valid() && lexer.b.rules == [DefaultRule(1)] && |lexer.trans| > declared
  {
    hide *;
    NothingNeeded(csize);
    var read := ReadRules(csize, [false], []);
    assert [] + [DefaultRule(1)] == [DefaultRule(1)];
    var built, size := BuildSpeedScanner(read.value);
    DefaultAlone(1, csize);
    return built.value, size;
  }

  lemma NothingNeeded(csize: int)
    ensures Readable([false], [], csize) && Parsed([false], []) && Buildable(2, [], 1)
    ensures RulesStates([], 0, [false] + [false]) == 0
  {}
}
