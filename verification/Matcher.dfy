/** The match loop of the generated scanner (gen.c: gen_next_match, gen_find_action, gen_next_state, gen_NUL_trans;
    skel.c: yylex, yy_get_previous_state, yy_try_NUL_trans). It finds the longest match, and the first rule among the
    longest, unless the transitions on NUL have a table of their own: a scanner with such a table forgets the match in
    front of a NUL. */
module Matcher {
  import opened Abstraction
  import opened Dfa
  import opened Compression
  import opened Gentabs
  import opened Scanner

  /** In start state i every single character is matched by some rule, for instance the default rule. */
  ghost predicate HasDefault(b: Build, i: int) {
    forall c :: 0 <= c < b.csize ==> SomeRule(b, i, [c])
  }

  ghost predicate SomeRule(b: Build, i: int, w: seq<int>) {
    exists k :: RuleMatches(b, i, k, w)
  }

  /** The first len characters of text are matched by rule number act, by no rule before it, and no longer
      prefix is matched by any rule. */
  ghost predicate Longest(b: Build, i: int, text: seq<int>, act: int, len: int) {
    && 0 <= len <= |text| && 1 <= act <= |b.rules| && FirstRule(b, i, text[..len], act)
    && forall j :: len < j <= |text| ==> FirstRule(b, i, text[..j], 0)
  }

  lemma FirstOne(b: Build, i: int, w: seq<int>, a: int, a': int)
    requires FirstRule(b, i, w, a) && FirstRule(b, i, w, a')
    ensures a == a'
  {}

  /** There is only one longest match. */
  lemma OneLongest(b: Build, i: int, text: seq<int>, act: int, len: int, act': int, len': int)
    requires Longest(b, i, text, act, len) && Longest(b, i, text, act', len')
    ensures act == act' && len == len'
  {
    FirstOne(b, i, text[..len], act, if len' < len then 0 else act');
    FirstOne(b, i, text[..len'], act', if len < len' then 0 else act);
  }

  /** As Longest, but for the match that ends at skip, if there is one. */
  ghost predicate LongestBut(b: Build, i: int, text: seq<int>, skip: int, act: int, len: int) {
    && 0 <= len <= |text| && len != skip && 1 <= act <= |b.rules| && FirstRule(b, i, text[..len], act)
    && forall j :: len < j <= |text| && j != skip ==> FirstRule(b, i, text[..j], 0)
  }

  /** No match but the one that ends at skip. */
  ghost predicate OnlyAt(b: Build, i: int, text: seq<int>, skip: int) {
    forall j :: 0 <= j <= |text| && j != skip ==> FirstRule(b, i, text[..j], 0)
  }

  /** The longest match ends in front of a NUL, at n, and len characters are matched instead. */
  ghost predicate Cut(b: Build, i: int, text: seq<int>, n: int, act: int, len: int) {
    && 0 <= len < n < |text| && text[n] == 0 && LongestBut(b, i, text, n, act, len)
    && exists a :: Longest(b, i, text, a, n)
  }

  /** What is the longest match but for the one at skip is the longest match, or that one is. */
  lemma ButOr(b: Build, i: int, text: seq<int>, skip: int, act: int, len: int)
    requires LongestBut(b, i, text, skip, act, len) && (skip == -1 || (0 <= skip < |text| && text[skip] == 0))
    ensures Longest(b, i, text, act, len) || Cut(b, i, text, skip, act, len)
  {
    hide FirstRule;
    if skip > len && !FirstRule(b, i, text[..skip], 0) {
      var a := SomeFirst(b, i, text[..skip]);
      assert Longest(b, i, text, a, skip);
    }
  }

  lemma CutRange(b: Build, i: int, text: seq<int>, n: int, act: int, len: int)
    requires Cut(b, i, text, n, act, len)
    ensures 0 <= len < n < |text| && text[n] == 0 && 1 <= act <= |b.rules|
  {}

  lemma AsBut(b: Build, i: int, text: seq<int>, act: int, len: int)
    requires Longest(b, i, text, act, len)
    ensures LongestBut(b, i, text, -1, act, len)
  {}

  lemma NotCut(b: Build, i: int, text: seq<int>, act: int, len: int)
    requires LongestBut(b, i, text, -1, act, len)
    ensures Longest(b, i, text, act, len)
  {}

  lemma LongestRange(b: Build, i: int, text: seq<int>, act: int, len: int)
    requires Longest(b, i, text, act, len)
    ensures 0 <= len <= |text| && 1 <= act <= |b.rules|
  {}

  lemma NothingLonger(b: Build, i: int, text: seq<int>, act: int, len: int, j: int)
    requires Longest(b, i, text, act, len) && len < j <= |text|
    ensures FirstRule(b, i, text[..j], 0)
  {}

  /** The longest match of a text that is not empty is not empty. */
  lemma LongestSome(b: Build, i: int, text: seq<int>, act: int, len: int)
    requires HasDefault(b, i) && IsText(b, text) && text != [] && Longest(b, i, text, act, len)
    ensures len >= 1
  {
    hide Longest, FirstRule, HasDefault;
    LongestRange(b, i, text, act, len);
    DefaultMatches(b, i, text);
    if len < 1 { NothingLonger(b, i, text, act, len, 1); }
  }

  /** The DFA state after j characters. */
  ghost function StateAt(b: Build, i: int, text: seq<int>, j: int): int
    requires IsText(b, text) && 0 <= j <= |text|
  {
    Run(b.rows, i, EcWord(b.num, text[..j]))
  }

  /** The tables hold the rows, yy_NUL_trans the transitions on NUL that are not there, yy_accept the accepting numbers,
      and yy_ec the classes. */
  ghost predicate TableSide(b: Build, t: ScanTables, yyEc: seq<int>) {
    && Holds(t, b.states, b.entries, b.kept, b.temps, b.tnum, b.eob, b.numecs)
    && Parted(b.rows, b.kept, b.nultrans, b.useNul, b.numecs) && AllLive(b.rows, b.states, b.numecs)
    && |t.accept| == |b.rows| + 2 && t.accept[t.jamstate] == 0 && |b.dfaacc| == |b.rows| + 1
    && (forall d :: 1 <= d <= |b.rows| ==> t.accept[d] == if d == b.eob then |b.rules| + 1 else b.dfaacc[d])
    && 0 < b.csize == |yyEc| <= |b.num| && yyEc[0] == 0
    && (forall ch :: 1 <= ch < b.csize ==> yyEc[ch] == Ec(b.num, ch))
    && (forall ch :: 0 <= ch < b.csize ==> 1 <= Ec(b.num, ch) <= b.numecs)
    && (b.useNul ==> forall ch :: 0 <= ch < b.csize ==> (Ec(b.num, ch) == b.numecs <==> ch == 0))
  }

  /** Before character cp the scanner is in the state of the DFA run, and has not jammed. */
  ghost predicate OnRun(b: Build, i: int, text: seq<int>, cp: int, state: int) {
    IsText(b, text) && 0 <= cp <= |text| && state == StateAt(b, i, text, cp) && 1 <= state <= |b.rows| && state != b.eob
  }

  /** The last accepting state before position cp has been noted, if there is one; the one at position skip may have
      been forgotten, and where there is no other, the end-of-buffer state behind the NUL at skip has been noted. */
  ghost predicate Noted(b: Build, t: ScanTables, i: int, text: seq<int>, cp: int, skip: int, lastState: int,
                        lastCp: int) {
    && IsText(b, text) && 0 <= cp <= |text| + 1
    && (forall j :: 0 <= j < cp ==> StateAt(b, i, text, j) != 0)
    && (NoneNoted(b, t, i, text, cp, skip, lastState, lastCp) || NotedAt(b, t, i, text, cp, skip, lastState, lastCp))
  }

  ghost predicate NoneNoted(b: Build, t: ScanTables, i: int, text: seq<int>, cp: int, skip: int, lastState: int,
                            lastCp: int)
    requires IsText(b, text) && 0 <= cp <= |text| + 1
  {
    && (forall j :: 0 <= j < cp && j != skip ==> AcceptAt(b, t, i, text, j) == 0)
    && (skip >= 0 ==> lastState == b.eob && lastCp == skip + 1)
  }

  ghost predicate NotedAt(b: Build, t: ScanTables, i: int, text: seq<int>, cp: int, skip: int, lastState: int,
                          lastCp: int) {
    && 0 <= lastCp < cp <= |text| + 1 && lastCp != skip && OnRun(b, i, text, lastCp, lastState)
    && AcceptAt(b, t, i, text, lastCp) != 0
    && forall j :: lastCp < j < cp && j != skip ==> AcceptAt(b, t, i, text, j) == 0
  }

  ghost function AcceptAt(b: Build, t: ScanTables, i: int, text: seq<int>, j: int): int
    requires IsText(b, text) && 0 <= j <= |text|
  {
    var d := StateAt(b, i, text, j);
    if 0 <= d < |t.accept| then t.accept[d] else 0
  }

  /** What AcceptAt says about the rules. */
  lemma AcceptText(b: Build, t: ScanTables, yyEc: seq<int>, i: int, text: seq<int>, j: int)
    requires NfaSide(b) && DfaSide(b) && TableSide(b, t, yyEc) && IsText(b, text)
    requires 1 <= i < |b.starts| && 0 <= j <= |text| && StateAt(b, i, text, j) != 0
    ensures FirstRule(b, i, text[..j], AcceptAt(b, t, i, text, j))
  {
    hide NfaSide, Holds, FirstRule, RowsOk, Primed, Parted, AllLive;
    var w := text[..j];
    var d := StateAt(b, i, text, j);
    TextClasses(b, t, yyEc, w);
    RunMeans(b, i, EcWord(b.num, w));
    AcceptMeans(b, i, w, b.dss[d], b.dfaacc[d]);
  }

  lemma TextClasses(b: Build, t: ScanTables, yyEc: seq<int>, w: seq<int>)
    requires TableSide(b, t, yyEc) && IsText(b, w)
    ensures InClasses(EcWord(b.num, w), b.numecs)
  {
    hide Holds;
  }

  lemma MatchStart(b: Build, t: ScanTables, i: int, text: seq<int>, lastState: int, lastCp: int)
    requires NfaSide(b) && DfaSide(b) && 1 <= i < |b.starts| && IsText(b, text)
    ensures OnRun(b, i, text, 0, i) && Noted(b, t, i, text, 0, -1, lastState, lastCp)
  {
    assert text[..0] == [];
    RunStarts(b, i);
  }

  /** One transition by a character of the text. */
  lemma CharStep(b: Build, t: ScanTables, yyEc: seq<int>, i: int, text: seq<int>, cp: int, state: int)
    requires NfaSide(b) && DfaSide(b) && TableSide(b, t, yyEc) && 1 <= i < |b.starts| && OnRun(b, i, text, cp, state)
             && cp < |text|
    ensures var c := Ec(b.num, text[cp]);
            && 1 <= c <= b.numecs < |b.rows[state - 1]| && StateAt(b, i, text, cp + 1) == b.rows[state - 1][c]
            && (b.rows[state - 1][c] != 0 ==> OnRun(b, i, text, cp + 1, b.rows[state - 1][c]))
  {
    hide NfaSide, DfaSide, Holds, Parted, AllLive, RunsTo;
    TableFacts(b, t, yyEc);
    var w, c := text[..cp], Ec(b.num, text[cp]);
    assert text[..cp + 1] == w + [text[cp]];
    assert EcWord(b.num, text[..cp + 1]) == EcWord(b.num, w) + [c];
    ClassStep(b, i, EcWord(b.num, w), c);
  }

  lemma ClassStep(b: Build, i: int, e: seq<int>, c: int)
    requires NfaSide(b) && DfaSide(b) && 1 <= i < |b.starts| && InClasses(e, b.numecs) && 1 <= c <= b.numecs
    requires Run(b.rows, i, e) != 0
    ensures var d, d' := Run(b.rows, i, e), Run(b.rows, i, e + [c]);
            && 1 <= d <= |b.rows| && c < |b.rows[d - 1]| && d' == b.rows[d - 1][c]
            && (d' != 0 ==> 1 <= d' <= |b.rows| && d' != b.eob)
  {
    hide NfaSide, DfaSide;
    RunMeans(b, i, e);
    RunStep(b, i, e, c, Run(b.rows, i, e));
    assert (e + [c])[..|e|] == e;
  }

  lemma NotedStep(b: Build, t: ScanTables, i: int, text: seq<int>, cp: int, skip: int, state: int, lastState: int,
                  lastCp: int)
    requires Noted(b, t, i, text, cp, skip, lastState, lastCp) && OnRun(b, i, text, cp, state) && state < |t.accept|
    requires skip < cp
    ensures Noted(b, t, i, text, cp + 1, skip, if t.accept[state] != 0 then state else lastState,
                  if t.accept[state] != 0 then cp else lastCp)
  {}

  /** Nothing is noted in front of a NUL that has a table: from now on its position is the one that may be forgotten. */
  lemma NotedForgotten(b: Build, t: ScanTables, i: int, text: seq<int>, n: int, lastState: int, lastCp: int)
    requires Noted(b, t, i, text, n, -1, lastState, lastCp) && 0 <= n <= |text| && StateAt(b, i, text, n) != 0
    requires (forall j :: 0 <= j < n ==> AcceptAt(b, t, i, text, j) == 0) ==> lastState == b.eob && lastCp == n + 1
    ensures Noted(b, t, i, text, n + 1, n, lastState, lastCp)
  {
    if forall j :: 0 <= j < n ==> AcceptAt(b, t, i, text, j) == 0 {
      assert NoneNoted(b, t, i, text, n + 1, n, lastState, lastCp);
    } else {
      assert NotedAt(b, t, i, text, n, -1, lastState, lastCp);
    }
  }

  /** What has been noted once nothing can follow from position m on: the longest match, but for the one at skip, or,
      where there is no other, that a NUL has been passed. */
  ghost predicate Final(b: Build, t: ScanTables, i: int, text: seq<int>, m: int, skip: int, lastState: int, lastCp: int)
  {
    && 0 <= lastState < |t.accept|
    && if t.accept[lastState] == |b.rules| + 1 then
         skip == 1 < m && lastState == b.eob && lastCp == 2 && OnlyAt(b, i, text, skip)
       else LongestBut(b, i, text, skip, t.accept[lastState], lastCp) && lastCp < m
  }

  lemma FinalMeans(b: Build, t: ScanTables, i: int, text: seq<int>, m: int, skip: int, lastState: int, lastCp: int)
    requires Final(b, t, i, text, m, skip, lastState, lastCp)
    ensures 0 <= lastState < |t.accept| && t.accept[lastState] != 0
    ensures if t.accept[lastState] == |b.rules| + 1 then
              skip == 1 < m && lastState == b.eob && lastCp == 2 && OnlyAt(b, i, text, skip)
            else LongestBut(b, i, text, skip, t.accept[lastState], lastCp) && lastCp < m
    ensures t.accept[lastState] != |b.rules| + 1 ==> 1 <= t.accept[lastState] <= |b.rules| && 0 <= lastCp <= |text|
    ensures skip == -1 ==> t.accept[lastState] <= |b.rules| && Longest(b, i, text, t.accept[lastState], lastCp)
                           && lastCp < m
  {
    if t.accept[lastState] != |b.rules| + 1 {
      if skip == -1 { NotCut(b, i, text, t.accept[lastState], lastCp); }
    }
  }

  lemma NotedLongest(b: Build, t: ScanTables, yyEc: seq<int>, i: int, text: seq<int>, m: int, skip: int,
                     lastState: int, lastCp: int)
    requires NfaSide(b) && DfaSide(b) && TableSide(b, t, yyEc) && 1 <= i < |b.starts| && HasDefault(b, i)
    requires Noted(b, t, i, text, m, skip, lastState, lastCp) && 1 <= m <= |text| + 1 && |text| >= 1
    requires forall j :: m <= j <= |text| ==> FirstRule(b, i, text[..j], 0)
    ensures Final(b, t, i, text, m, skip, lastState, lastCp)
  {
    hide NfaSide, DfaSide, TableSide, FirstRule, HasDefault, OnRun;
    TableFacts(b, t, yyEc);
    forall j | 0 <= j < m ensures FirstRule(b, i, text[..j], AcceptAt(b, t, i, text, j)) {
      AcceptText(b, t, yyEc, i, text, j);
    }
    DefaultMatches(b, i, text);
    assert m > 1 && AcceptAt(b, t, i, text, 1) != 0;
    if NotedAt(b, t, i, text, m, skip, lastState, lastCp) {
      NotedState(b, t, i, text, lastState, lastCp);
      FirstNumber(b, i, text[..lastCp], AcceptAt(b, t, i, text, lastCp));
      assert LongestBut(b, i, text, skip, t.accept[lastState], lastCp);
    } else {
      assert skip == 1;
      assert OnlyAt(b, i, text, skip);
    }
  }

  lemma NotedState(b: Build, t: ScanTables, i: int, text: seq<int>, lastState: int, lastCp: int)
    requires OnRun(b, i, text, lastCp, lastState) && AcceptAt(b, t, i, text, lastCp) != 0
    ensures 0 <= lastState < |t.accept| && t.accept[lastState] == AcceptAt(b, t, i, text, lastCp)
  {}

  lemma DefaultMatches(b: Build, i: int, text: seq<int>)
    requires HasDefault(b, i) && IsText(b, text) && |text| >= 1
    ensures !FirstRule(b, i, text[..1], 0)
  {
    assert text[..1] == [text[0]];
    assert SomeRule(b, i, [text[0]]);
  }

  lemma FirstNumber(b: Build, i: int, w: seq<int>, a: int)
    requires FirstRule(b, i, w, a)
    ensures a == 0 || 1 <= a <= |b.rules|
  {}

  lemma SomeFirst(b: Build, i: int, w: seq<int>) returns (a: int)
    requires !FirstRule(b, i, w, 0)
    ensures FirstRule(b, i, w, a) && 1 <= a <= |b.rules|
  {
    var k :| RuleMatches(b, i, k, w);
    a := LeastRule(b, i, w, k);
    FirstNumber(b, i, w, a);
  }

  lemma {:induction false} LeastRule(b: Build, i: int, w: seq<int>, k: int) returns (a: int)
    requires RuleMatches(b, i, k, w)
    ensures FirstRule(b, i, w, a) && a >= 1
    decreases k
  {
    if j :| j < k && RuleMatches(b, i, j, w) { a := LeastRule(b, i, w, j); } else { a := k + 1; }
  }

  /** Where the DFA has jammed no rule matches any more. */
  lemma JamLater(b: Build, t: ScanTables, yyEc: seq<int>, i: int, text: seq<int>, cp: int)
    requires NfaSide(b) && DfaSide(b) && TableSide(b, t, yyEc) && 1 <= i < |b.starts| && IsText(b, text)
    requires 0 <= cp <= |text| && StateAt(b, i, text, cp) == 0
    ensures forall j :: cp <= j <= |text| ==> FirstRule(b, i, text[..j], 0)
  {
    hide NfaSide, DfaSide, Holds, RunsTo, Stuck, FirstRule;
    TextClasses(b, t, yyEc, text);
    RunMeans(b, i, EcWord(b.num, text[..cp]));
    RunStuck(b, i, EcWord(b.num, text[..cp]));
    forall j | cp <= j <= |text| ensures FirstRule(b, i, text[..j], 0) {
      assert EcWord(b.num, text[..j]) == EcWord(b.num, text[..cp]) + EcWord(b.num, text[cp..j]);
      StuckOn(b, i, EcWord(b.num, text[..cp]), EcWord(b.num, text[cp..j]));
      StuckNoRule(b, i, text[..j]);
    }
  }

  lemma RunStuck(b: Build, i: int, e: seq<int>)
    requires RunsTo(b, i, e, Run(b.rows, i, e))
    ensures Run(b.rows, i, e) == 0 <==> Stuck(b, i, e)
  {}

  /** Before cp every prefix keeps the DFA running; from cp on nothing is matched. */
  lemma ZeroLater(b: Build, t: ScanTables, yyEc: seq<int>, i: int, text: seq<int>, cp: int, state: int)
    requires NfaSide(b) && DfaSide(b) && TableSide(b, t, yyEc) && 1 <= i < |b.starts| && OnRun(b, i, text, cp, state)
    requires AllZero(b.rows[state - 1], b.numecs)
    ensures forall j :: cp + 1 <= j <= |text| ==> FirstRule(b, i, text[..j], 0)
  {
    hide NfaSide, DfaSide, TableSide, FirstRule;
    if cp < |text| {
      CharStep(b, t, yyEc, i, text, cp, state);
      JamLater(b, t, yyEc, i, text, cp + 1);
    }
  }

  /** A part of the text as the scanner sees it: behind it come the two characters that mark the end of the buffer. */
  ghost predicate Window(b: Build, text: seq<int>, buf: seq<int>) {
    && IsText(b, text) && 2 <= |buf| <= |text| + 2 && buf[|buf| - 2] == 0 == buf[|buf| - 1]
    && forall k :: 0 <= k < |buf| - 2 ==> buf[k] == text[k]
  }

  lemma WindowChar(b: Build, t: ScanTables, yyEc: seq<int>, text: seq<int>, buf: seq<int>, cp: int)
    requires Window(b, text, buf) && TableSide(b, t, yyEc) && 0 <= cp < |buf|
    ensures 0 <= buf[cp] < |yyEc| && (buf[cp] == 0 ==> yyEc[buf[cp]] == 0)
    ensures buf[cp] != 0 ==> cp < |buf| - 2 && cp < |text| && buf[cp] == text[cp]
                             && yyEc[buf[cp]] == Ec(b.num, text[cp])
    ensures 0 <= yyEc[buf[cp]] <= b.numecs && (b.useNul ==> yyEc[buf[cp]] != b.numecs)
  {
    hide Holds, Parted, AllLive;
    TableFacts(b, t, yyEc);
    assert 1 <= Ec(b.num, 0) <= b.numecs;
    if buf[cp] != 0 { assert yyEc[buf[cp]] == Ec(b.num, buf[cp]); }
  }

  /** Where the match loop stands: on the run of the DFA, or in the end-of-buffer state behind a character 0. */
  ghost predicate Going(b: Build, t: ScanTables, i: int, text: seq<int>, buf: seq<int>, cp0: int, cp: int, skip: int,
                        state: int, lastState: int, lastCp: int) {
    && 0 <= cp0 <= cp < |buf| && (forall k :: cp0 <= k < cp - 1 ==> buf[k] != 0) && skip < cp0
    && if state == b.eob then
         cp0 < cp && buf[cp - 1] == 0 && StateAt0(b, i, text, cp - 1)
       else
         && cp <= |buf| - 2 && (cp0 < cp ==> buf[cp - 1] != 0) && OnRun(b, i, text, cp, state)
         && Noted(b, t, i, text, cp, skip, lastState, lastCp)
  }

  /** The DFA has not jammed within the first j characters. */
  ghost predicate StateAt0(b: Build, i: int, text: seq<int>, j: int) {
    IsText(b, text) && 0 <= j <= |text| && StateAt(b, i, text, j) != 0
  }

  lemma GoingOn(b: Build, t: ScanTables, yyEc: seq<int>, i: int, text: seq<int>, buf: seq<int>, cp0: int, cp: int,
                skip: int, state: int, lastState: int, lastCp: int, next: int)
    requires NfaSide(b) && DfaSide(b) && TableSide(b, t, yyEc) && 1 <= i < |b.starts| && Window(b, text, buf)
    requires Going(b, t, i, text, buf, cp0, cp, skip, state, lastState, lastCp) && state != b.eob
    requires 1 <= state <= |b.rows| && 0 <= buf[cp] < |yyEc| && 0 <= yyEc[buf[cp]] < |b.rows[state - 1]|
             && state < |t.accept|
    requires next == Target(b.rows, b.eob, t.jamstate, state, yyEc[buf[cp]])
    ensures next != t.jamstate ==> Going(b, t, i, text, buf, cp0, cp + 1, skip, next, if t.accept[state] != 0
                                     then state else lastState, if t.accept[state] != 0 then cp else lastCp)
    ensures next == t.jamstate ==> cp < |buf| - 2 && cp < |text| && IsText(b, text) && StateAt(b, i, text, cp + 1) == 0
                                   && buf[cp] != 0
  {
    hide NfaSide, DfaSide, TableSide, OnRun, Noted;
    WindowChar(b, t, yyEc, text, buf, cp);
    TableFacts(b, t, yyEc);
    NotedStep(b, t, i, text, cp, skip, state, lastState, lastCp);
    RunState(b, i, text, cp, state);
    if buf[cp] != 0 {
      CharStep(b, t, yyEc, i, text, cp, state);
      if b.rows[state - 1][yyEc[buf[cp]]] != 0 { RunState(b, i, text, cp + 1, b.rows[state - 1][yyEc[buf[cp]]]); }
    }
  }

  lemma WindowText(b: Build, text: seq<int>, buf: seq<int>, cp: int)
    requires Window(b, text, buf) && 0 <= cp < |buf| - 2
    ensures cp < |text| && buf[cp] == text[cp]
  {}

  lemma TableFacts(b: Build, t: ScanTables, yyEc: seq<int>)
    requires TableSide(b, t, yyEc)
    ensures |t.accept| == |b.rows| + 2 && t.jamstate == |b.rows| + 1 < |t.base| && t.accept[t.jamstate] == 0
    ensures 1 <= b.eob <= |b.rows| && t.accept[b.eob] == |b.rules| + 1
    ensures forall d :: 0 <= d < |b.rows| ==> |b.rows[d]| == b.numecs + 1
  {
    Emits(t, b.states, b.entries, b.kept, b.temps, b.tnum, b.eob, b.numecs);
    hide Holds, AllLive;
  }

  /** The compressed tables know the rows, except for the transitions on NUL if these have a table. */
  lemma KeptTarget(b: Build, t: ScanTables, yyEc: seq<int>, state: int, c: int)
    requires TableSide(b, t, yyEc) && 1 <= state <= |b.rows| && 0 <= c <= b.numecs && (b.useNul ==> c != b.numecs)
    ensures |b.kept| == |b.rows| && |b.kept[state - 1]| == |b.rows[state - 1]| == b.numecs + 1
    ensures Target(b.kept, b.eob, t.jamstate, state, c) == Target(b.rows, b.eob, t.jamstate, state, c)
  {
    hide Holds, AllLive;
  }

  lemma NulTarget(b: Build, t: ScanTables, yyEc: seq<int>, state: int)
    requires TableSide(b, t, yyEc) && b.useNul && 1 <= state <= |b.rows|
    ensures state < |b.nultrans| && b.numecs < |b.rows[state - 1]| && b.nultrans[state] == b.rows[state - 1][b.numecs]
    ensures 0 < b.csize <= |b.num| && Ec(b.num, 0) == b.numecs
  {
    hide Holds, AllLive;
  }

  /** Only a state without transitions, not even on NUL, has the jam state's base. */
  lemma JamBase(b: Build, t: ScanTables, yyEc: seq<int>, state: int)
    requires TableSide(b, t, yyEc) && 1 <= state <= |b.rows| && t.jamstate < |t.base| && state < |t.base|
    requires t.base[state] == t.base[t.jamstate]
    ensures state != b.eob && AllZero(b.rows[state - 1], b.numecs)
  {
    hide Holds;
    AllJam(t, b.states, b.entries, b.kept, b.temps, b.tnum, b.eob, b.numecs, state);
  }

  /** And every such state has it. */
  lemma JamBaseBack(b: Build, t: ScanTables, yyEc: seq<int>, state: int)
    requires TableSide(b, t, yyEc) && 1 <= state <= |b.rows| && state != b.eob
    requires AllZero(b.rows[state - 1], b.numecs)
    ensures 0 < t.jamstate < |t.base| && state < |t.base| && t.base[state] == t.base[t.jamstate]
  {
    hide Holds;
    TableFacts(b, t, yyEc);
    JamsAll(t, b.states, b.entries, b.kept, b.temps, b.tnum, b.eob, b.numecs, state);
  }

  lemma RunState(b: Build, i: int, text: seq<int>, cp: int, state: int)
    requires OnRun(b, i, text, cp, state)
    ensures 1 <= state <= |b.rows| && state != b.eob && IsText(b, text) && 0 <= cp <= |text|
            && StateAt(b, i, text, cp) == state
  {}

  lemma GoingStart(b: Build, t: ScanTables, i: int, text: seq<int>, buf: seq<int>, cp0: int, skip: int, state: int,
                   lastState: int, lastCp: int)
    requires OnRun(b, i, text, cp0, state) && Noted(b, t, i, text, cp0, skip, lastState, lastCp)
    requires 0 <= cp0 <= |buf| - 2 && skip < cp0
    ensures Going(b, t, i, text, buf, cp0, cp0, skip, state, lastState, lastCp)
  {
    hide Noted;
  }

  lemma GoingBounds(b: Build, t: ScanTables, yyEc: seq<int>, i: int, text: seq<int>, buf: seq<int>, cp0: int, cp: int,
                    skip: int, state: int, lastState: int, lastCp: int)
    requires Going(b, t, i, text, buf, cp0, cp, skip, state, lastState, lastCp) && TableSide(b, t, yyEc)
    ensures 1 <= state <= |b.rows| && state < |t.accept| && state < |t.base| && 0 <= cp < |buf|
            && |b.rows[state - 1]| == b.numecs + 1
  {
    hide TableSide, Noted;
    TableFacts(b, t, yyEc);
    if state != b.eob { RunState(b, i, text, cp, state); }
  }

  /** The end-of-buffer state has no transitions. */
  lemma EobJams(b: Build, t: ScanTables, yyEc: seq<int>, c: int)
    requires NfaSide(b) && DfaSide(b) && TableSide(b, t, yyEc) && 0 <= c <= b.numecs
    ensures 1 <= b.eob <= |b.rows| && |b.rows[b.eob - 1]| == b.numecs + 1
            && Target(b.rows, b.eob, t.jamstate, b.eob, c) == t.jamstate
  {
    hide NfaSide, Holds, Parted, AllLive;
    TableFacts(b, t, yyEc);
    EobRowZero(b, c);
  }

  lemma EobRowZero(b: Build, c: int)
    requires DfaSide(b) && 1 <= b.eob <= |b.rows| && 0 <= c <= b.numecs && |b.rows[b.eob - 1]| == b.numecs + 1
    ensures c == 0 || b.rows[b.eob - 1][c] == 0
  {
    var n, acc := b.s.net, b.s.accptnum;
    if c != 0 {
      assert RowOk(n, acc, b.num, b.ecls, b.dss, b.dss[b.eob], b.rows[b.eob - 1], b.numecs);
      assert RowAt(n, acc, b.num, b.ecls, b.dss, b.dss[b.eob], c, b.rows[b.eob - 1][c]);
    }
  }

  lemma GoingEob(b: Build, t: ScanTables, i: int, text: seq<int>, buf: seq<int>, cp0: int, cp: int, skip: int,
                 lastState: int, lastCp: int)
    requires Going(b, t, i, text, buf, cp0, cp, skip, b.eob, lastState, lastCp)
    ensures cp0 < cp < |buf| && buf[cp - 1] == 0 && StateAt0(b, i, text, cp - 1)
            && forall k :: cp0 <= k < cp - 1 ==> buf[k] != 0
  {
    hide StateAt0;
  }

  /** The loop has ended in the jam state: the last accepting state noted decides. */
  lemma Jammed(b: Build, t: ScanTables, yyEc: seq<int>, i: int, text: seq<int>, buf: seq<int>, cp0: int, cp: int,
               skip: int, state: int, lastState: int, lastCp: int)
    requires NfaSide(b) && DfaSide(b) && TableSide(b, t, yyEc) && 1 <= i < |b.starts| && HasDefault(b, i)
    requires Going(b, t, i, text, buf, cp0, cp, skip, state, lastState, lastCp) && state != b.eob && cp < |text|
    requires 0 <= state < |t.accept| && IsText(b, text) && StateAt(b, i, text, cp + 1) == 0
    ensures Final(b, t, i, text, cp + 1, skip, if t.accept[state] != 0 then state else lastState,
                  if t.accept[state] != 0 then cp else lastCp)
  {
    hide NfaSide, DfaSide, TableSide, Final, FirstRule, HasDefault, OnRun, Noted, StateAt;
    NotedStep(b, t, i, text, cp, skip, state, lastState, lastCp);
    JamLater(b, t, yyEc, i, text, cp + 1);
    NotedLongest(b, t, yyEc, i, text, cp + 1, skip, if t.accept[state] != 0 then state else lastState,
        if t.accept[state] != 0 then cp else lastCp);
  }

  /** The loop has ended in a state that nothing can follow. */
  lemma LastState(b: Build, t: ScanTables, yyEc: seq<int>, i: int, text: seq<int>, buf: seq<int>, cp0: int, cp: int,
                  skip: int, state: int, lastState: int, lastCp: int)
    requires NfaSide(b) && DfaSide(b) && TableSide(b, t, yyEc) && 1 <= i < |b.starts| && HasDefault(b, i)
    requires Going(b, t, i, text, buf, cp0, cp, skip, state, lastState, lastCp) && cp0 < cp && Window(b, text, buf)
    requires t.jamstate < |t.base| && 1 <= state <= |b.rows| && state < |t.base| && t.base[state] == t.base[t.jamstate]
    ensures state < |t.accept| && cp <= |buf| - 2 && state != b.eob
    ensures Final(b, t, i, text, cp + 1, skip, if t.accept[state] != 0 then state else lastState,
                  if t.accept[state] != 0 then cp else lastCp)
  {
    hide NfaSide, DfaSide, TableSide, Final, FirstRule, HasDefault, OnRun, Noted, StateAt0;
    TableFacts(b, t, yyEc);
    JamBase(b, t, yyEc, state);
    ZeroLater(b, t, yyEc, i, text, cp, state);
    RunState(b, i, text, cp, state);
    NotedStep(b, t, i, text, cp, skip, state, lastState, lastCp);
    NotedLongest(b, t, yyEc, i, text, cp + 1, skip, if t.accept[state] != 0 then state else lastState,
        if t.accept[state] != 0 then cp else lastCp);
  }

  /** Where the text is known to go on, the DFA does not jam before. */
  lemma NotJammed(b: Build, t: ScanTables, yyEc: seq<int>, i: int, text: seq<int>, cp: int, n: int)
    requires NfaSide(b) && DfaSide(b) && TableSide(b, t, yyEc) && 1 <= i < |b.starts| && StateAt0(b, i, text, n)
             && 0 <= cp < n
    ensures StateAt(b, i, text, cp + 1) != 0
  {
    hide NfaSide, DfaSide, TableSide, Stuck, RunsTo;
    if StateAt(b, i, text, cp + 1) == 0 {
      TextClasses(b, t, yyEc, text[..cp + 1]);
      TextClasses(b, t, yyEc, text[..n]);
      var e := EcWord(b.num, text[..cp + 1]);
      RunMeans(b, i, e);
      RunStuck(b, i, e);
      StuckOn(b, i, e, EcWord(b.num, text[cp + 1..n]));
      assert EcWord(b.num, text[..n]) == e + EcWord(b.num, text[cp + 1..n]);
      RunMeans(b, i, EcWord(b.num, text[..n]));
      RunStuck(b, i, EcWord(b.num, text[..n]));
    }
  }

  /** An accepting state on the run behind which nothing is matched. */
  lemma AcceptedHere(b: Build, t: ScanTables, yyEc: seq<int>, i: int, text: seq<int>, n: int, state: int)
    requires NfaSide(b) && DfaSide(b) && TableSide(b, t, yyEc) && 1 <= i < |b.starts|
    requires OnRun(b, i, text, n, state) && state < |t.accept|
    requires forall j :: n < j <= |text| ==> FirstRule(b, i, text[..j], 0)
    ensures FirstRule(b, i, text[..n], t.accept[state])
    ensures t.accept[state] != 0 ==> 1 <= t.accept[state] <= |b.rules| && Longest(b, i, text, t.accept[state], n)
  {
    hide NfaSide, DfaSide, TableSide, FirstRule;
    assert AcceptAt(b, t, i, text, n) == t.accept[state];
    AcceptText(b, t, yyEc, i, text, n);
    FirstNumber(b, i, text[..n], t.accept[state]);
  }

  /** Where nothing is matched at skip, nothing has been forgotten. */
  lemma NothingForgotten(b: Build, t: ScanTables, i: int, text: seq<int>, m: int, skip: int, lastState: int,
                         lastCp: int)
    requires Final(b, t, i, text, m, skip, lastState, lastCp) && 0 <= skip <= |text| && HasDefault(b, i)
    requires IsText(b, text) && |text| >= 1 && FirstRule(b, i, text[..skip], 0)
    ensures 1 <= t.accept[lastState] <= |b.rules| && Longest(b, i, text, t.accept[lastState], lastCp) && lastCp < m
  {
    hide FirstRule, HasDefault;
    FinalMeans(b, t, i, text, m, skip, lastState, lastCp);
    DefaultMatches(b, i, text);
    if t.accept[lastState] != |b.rules| + 1 {
      assert LongestBut(b, i, text, -1, t.accept[lastState], lastCp);
      NotCut(b, i, text, t.accept[lastState], lastCp);
    }
  }

  // ----- where the match loop stops

  ghost predicate NoNul(text: seq<int>, lo: int, hi: int) {
    forall k :: lo <= k < hi && 0 <= k < |text| ==> text[k] != 0
  }

  /** The state at m has the jam state's base: an interactive scanner reads no further. */
  ghost predicate Idle(b: Build, t: ScanTables, i: int, text: seq<int>, m: int)
    requires IsText(b, text) && 0 <= m <= |text|
  {
    var d := StateAt(b, i, text, m);
    0 < d < |t.base| && 0 <= t.jamstate < |t.base| && t.base[d] == t.base[t.jamstate]
  }

  /** From position from on there is no NUL up to m, and the loop stops there: the DFA jams on the next character, or
      an interactive scanner does not look at it. */
  ghost predicate Stops(b: Build, t: ScanTables, i: int, text: seq<int>, from: int, m: int, interactive: bool) {
    && IsText(b, text) && 0 <= from <= m <= |text| && StateAt(b, i, text, m) != 0 && NoNul(text, from, m)
    && ((m < |text| && text[m] != 0 && StateAt(b, i, text, m + 1) == 0)
        || (from < m && interactive && Idle(b, t, i, text, m)))
  }

  /** An interactive scanner would not have stopped between from and end. */
  ghost predicate Awake(b: Build, t: ScanTables, i: int, text: seq<int>, from: int, end: int, interactive: bool) {
    IsText(b, text) && (interactive ==> forall k :: 0 <= from < k < end && k <= |text| ==> !Idle(b, t, i, text, k))
  }

  lemma StillAwake(b: Build, t: ScanTables, i: int, text: seq<int>, buf: seq<int>, cp0: int, cp: int, skip: int,
                   state: int, lastState: int, lastCp: int, interactive: bool)
    requires Going(b, t, i, text, buf, cp0, cp, skip, state, lastState, lastCp) && 0 <= t.jamstate < |t.base|
    requires cp0 == cp || Awake(b, t, i, text, cp0, cp, interactive)
    requires cp0 < cp && interactive && state != b.eob && 0 <= state < |t.base| ==> t.base[state] != t.base[t.jamstate]
    ensures Awake(b, t, i, text, cp0, if state == b.eob then cp else cp + 1, interactive)
  {
    hide Noted, StateAt;
    assert IsText(b, text);
  }

  lemma JamStops(b: Build, t: ScanTables, i: int, text: seq<int>, buf: seq<int>, cp0: int, cp: int, skip: int,
                 state: int, lastState: int, lastCp: int, interactive: bool)
    requires Going(b, t, i, text, buf, cp0, cp, skip, state, lastState, lastCp) && state != b.eob
    requires Window(b, text, buf) && cp < |buf| - 2 && buf[cp] != 0 && StateAt(b, i, text, cp + 1) == 0
    ensures Stops(b, t, i, text, cp0, cp, interactive)
  {
    hide Noted, StateAt;
    WindowText(b, text, buf, cp);
    NoNulSeen(b, text, buf, cp0, cp);
  }

  lemma IdleStops(b: Build, t: ScanTables, i: int, text: seq<int>, buf: seq<int>, cp0: int, cp: int, skip: int,
                  state: int, lastState: int, lastCp: int)
    requires Going(b, t, i, text, buf, cp0, cp, skip, state, lastState, lastCp) && state != b.eob && cp0 < cp
    requires Window(b, text, buf) && 0 <= t.jamstate < |t.base| && state < |t.base|
    requires t.base[state] == t.base[t.jamstate]
    ensures Stops(b, t, i, text, cp0, cp, true)
  {
    hide Noted, StateAt;
    NoNulSeen(b, text, buf, cp0, cp);
  }

  lemma NoNulSeen(b: Build, text: seq<int>, buf: seq<int>, cp0: int, cp: int)
    requires Window(b, text, buf) && 0 <= cp0 <= cp <= |buf| - 2
    requires (forall k :: cp0 <= k < cp - 1 ==> buf[k] != 0) && (cp0 < cp ==> buf[cp - 1] != 0)
    ensures NoNul(text, cp0, cp) && cp <= |text|
  {
    forall k | cp0 <= k < cp ensures text[k] != 0 { WindowText(b, text, buf, k); }
  }

  /** The tables of a generated scanner; nul has the transitions on NUL if useNul. */
  class Lexer {
    const t: ScanTables
    const yyEc: seq<int>
    const nulEc: int
    const useNul: bool
    const nul: seq<int>
    const numRules: int
    ghost const b: Build

    ghost predicate Valid() {
      && NfaSide(b) && DfaSide(b) && TableSide(b, t, yyEc) && nulEc == Ec(b.num, 0) && numRules == |b.rules|
      && useNul == b.useNul && nul == b.nultrans
    }

    constructor (t: ScanTables, yyEc: seq<int>, nulEc: int, useNul: bool, nul: seq<int>, numRules: int, ghost b: Build)
      requires NfaSide(b) && DfaSide(b) && TableSide(b, t, yyEc) && nulEc == Ec(b.num, 0) && numRules == |b.rules|
      requires useNul == b.useNul && nul == b.nultrans
      ensures Valid() && this.b == b && this.t == t
    {
      this.t, this.yyEc, this.nulEc, this.useNul, this.nul, this.numRules := t, yyEc, nulEc, useNul, nul, numRules;
      this.b := b;
    }

    /** One transition of the generated scanner. */
    method Step(state: int, c: int) returns (next: int)
      requires Valid() && 1 <= state <= |b.rows| && 0 <= c <= b.numecs < |b.rows[state - 1]|
      requires useNul ==> c != b.numecs
      ensures next == Gentabs.Target(b.rows, b.eob, t.jamstate, state, c)
    {
      hide NfaSide, DfaSide, Holds, Parted, AllLive;
      KeptTarget(b, t, yyEc, state, c);
      ghost var conversions;
      next, conversions := NextState(t, state, c, b.states, b.entries, b.kept, b.temps, b.tnum, b.eob, b.numecs);
    }

    /** One transition on a character of the text, which may be a NUL: with a table for NUL, by that. */
    method StepText(state: int, c: int, ghost i: int, ghost text: seq<int>, ghost cp: int) returns (next: int)
      requires Valid() && 1 <= i < |b.starts| && OnRun(b, i, text, cp, state) && cp < |text| && c == text[cp]
      ensures next == StateAt(b, i, text, cp + 1) && (next != 0 ==> OnRun(b, i, text, cp + 1, next))
    {
      hide NfaSide, DfaSide, Holds, Parted, AllLive;
      TableFacts(b, t, yyEc);
      CharStep(b, t, yyEc, i, text, cp, state);
      if useNul && c == 0 {
        NulTarget(b, t, yyEc, state);
        next := nul[state];
      } else {
        next := Step(state, if c != 0 then yyEc[c] else nulEc);
        if next == t.jamstate { next := 0; }
      }
    }

    /** The match loop from position cp0 of the text on, in the buffer's window: act is the number of the rule matched
        and cp the end of its longest match; the number behind the last rule tells that a character 0 has been passed
        while the DFA was still running, which is a NUL or the end of the buffer. What has been forgotten at skip is
        not found, and where nothing else is matched the NUL behind it is passed again. The loop has read as far as
        stop. */
    method YyMatch(i: int, buf: seq<int>, cp0: int, state0: int, lastState0: int, lastCp0: int, interactive: bool,
                   ghost skip: int, ghost text: seq<int>)
      returns (act: int, cp: int, state: int, lastState: int, lastCp: int, ghost stop: int)
      requires Valid() && 1 <= i < |b.starts| && HasDefault(b, i) && Window(b, text, buf) && 0 <= cp0 <= |buf| - 2
      requires OnRun(b, i, text, cp0, state0) && Noted(b, t, i, text, cp0, skip, lastState0, lastCp0)
      requires skip == -1 || skip == cp0 - 1
      ensures act == |b.rules| + 1 ==> lastState == b.eob && lastCp == cp < |buf| && cp0 <= cp
      ensures act == |b.rules| + 1 && cp0 < cp ==> buf[cp - 1] == 0 && StateAt0(b, i, text, cp - 1)
                                                   && forall k :: cp0 <= k < cp - 1 ==> buf[k] != 0
      ensures act == |b.rules| + 1 && cp0 == cp ==> skip == 1 == cp0 - 1 && OnlyAt(b, i, text, skip)
      ensures act != |b.rules| + 1 ==> LongestBut(b, i, text, skip, act, cp) && cp <= |buf| - 2 && |buf| > 2
      ensures act == |b.rules| + 1 && cp0 < cp ==> stop == cp - 1 && Awake(b, t, i, text, cp0, cp, interactive)
      ensures act != |b.rules| + 1 || cp0 == cp ==> Stops(b, t, i, text, cp0, stop, interactive)
    {
      hide NfaSide, DfaSide, TableSide, OnRun, Noted, LongestBut, Final, FirstRule, HasDefault, StateAt0, Going,
           Window, OnlyAt, Stops, Awake;
      GoingStart(b, t, i, text, buf, cp0, skip, state0, lastState0, lastCp0);
      TableFacts(b, t, yyEc);
      cp, state, lastState, lastCp, stop := cp0, state0, lastState0, lastCp0, cp0;
      StillAwake(b, t, i, text, buf, cp0, cp, skip, state, lastState, lastCp, interactive);
      var jambase := t.base[t.jamstate];
      ghost var seen, m := false, 0;
      while true
        invariant Going(b, t, i, text, buf, cp0, cp, skip, state, lastState, lastCp) && 0 <= cp < |buf| && !seen
        invariant Awake(b, t, i, text, cp0, if state == b.eob then cp else cp + 1, interactive)
        decreases |buf| - cp
      {
        ghost var from, ls, lc := state, lastState, lastCp;
        GoingBounds(b, t, yyEc, i, text, buf, cp0, cp, skip, state, lastState, lastCp);
        WindowChar(b, t, yyEc, text, buf, cp);
        var yyC := yyEc[buf[cp]];
        if t.accept[state] != 0 { lastState, lastCp := state, cp; }
        state := Step(state, yyC);
        if from == b.eob {
          EobJams(b, t, yyEc, yyC);
          GoingEob(b, t, i, text, buf, cp0, cp, skip, ls, lc);
          seen, stop := true, cp - 1;
        } else {
          GoingOn(b, t, yyEc, i, text, buf, cp0, cp, skip, from, ls, lc, state);
          m, stop := cp + 1, cp;
          if state == t.jamstate {
            Jammed(b, t, yyEc, i, text, buf, cp0, cp, skip, from, ls, lc);
            JamStops(b, t, i, text, buf, cp0, cp, skip, from, ls, lc, interactive);
          }
        }
        cp := cp + 1;
        if state != t.jamstate { GoingBounds(b, t, yyEc, i, text, buf, cp0, cp, skip, state, lastState, lastCp); }
        if if interactive then t.base[state] == jambase else state == t.jamstate {
          if state != t.jamstate {
            LastState(b, t, yyEc, i, text, buf, cp0, cp, skip, state, lastState, lastCp);
            IdleStops(b, t, i, text, buf, cp0, cp, skip, state, lastState, lastCp);
            m, stop := cp + 1, cp;
          }
          break;
        }
        StillAwake(b, t, i, text, buf, cp0, cp, skip, state, lastState, lastCp, interactive);
      }
      if !seen {
        FinalMeans(b, t, i, text, m, skip, if t.accept[state] != 0 then state else lastState,
            if t.accept[state] != 0 then cp else lastCp);
      }
      if !interactive { cp, state := lastCp, lastState; }
      act, cp, state := FindAction(cp, state, lastState, lastCp);
    }

    /** The code at yy_find_action: where nothing is accepted the scanner backs up. */
    method FindAction(cp0: int, state0: int, lastState: int, lastCp: int) returns (act: int, cp: int, state: int)
      requires 0 <= state0 < |t.accept| && (t.accept[state0] == 0 ==> 0 <= lastState < |t.accept|)
      ensures if t.accept[state0] != 0 then act == t.accept[state0] && cp == cp0 && state == state0
              else act == t.accept[lastState] && cp == lastCp && state == lastState
    {
      cp, state := cp0, state0;
      act := t.accept[state];
      if act == 0 {
        cp, state := lastCp, lastState;
        act := t.accept[state];
      }
    }

    /** yy_get_previous_state: the state after the first n characters, NUL being a character like any other. */
    method GetPreviousState(i: int, buf: seq<int>, n: int, lastState0: int, lastCp0: int, ghost text: seq<int>)
      returns (state: int, lastState: int, lastCp: int)
      requires Valid() && 1 <= i < |b.starts| && Window(b, text, buf) && 0 <= n <= |buf| - 2 && StateAt0(b, i, text, n)
      ensures OnRun(b, i, text, n, state) && Noted(b, t, i, text, n, -1, lastState, lastCp)
      ensures Untouched(i, text, n, lastState0, lastCp0, lastState, lastCp)
    {
      hide NfaSide, DfaSide, TableSide, OnRun, Noted, StateAt0, Untouched;
      state, lastState, lastCp := i, lastState0, lastCp0;
      MatchStart(b, t, i, text, lastState, lastCp);
      TableFacts(b, t, yyEc);
      UntouchedStart(i, text, lastState0, lastCp0);
      var cp := 0;
      while cp < n
        invariant 0 <= cp <= n && OnRun(b, i, text, cp, state) && Noted(b, t, i, text, cp, -1, lastState, lastCp)
        invariant Untouched(i, text, cp, lastState0, lastCp0, lastState, lastCp)
      {
        RunState(b, i, text, cp, state);
        NotedStep(b, t, i, text, cp, -1, state, lastState, lastCp);
        UntouchedStep(i, text, cp, state, lastState0, lastCp0, lastState, lastCp);
        WindowText(b, text, buf, cp);
        NotJammed(b, t, yyEc, i, text, cp, n);
        if t.accept[state] != 0 { lastState, lastCp := state, cp; }
        state := StepText(state, buf[cp], i, text, cp);
        cp := cp + 1;
      }
    }

    /** Where none of the first n states accepts, nothing has been noted. */
    ghost predicate Untouched(i: int, text: seq<int>, n: int, lastState0: int, lastCp0: int, lastState: int,
                              lastCp: int) {
      && IsText(b, text) && 0 <= n <= |text|
      && ((forall j :: 0 <= j < n ==> AcceptAt(b, t, i, text, j) == 0) ==> lastState == lastState0 && lastCp == lastCp0)
    }

    lemma UntouchedStart(i: int, text: seq<int>, lastState: int, lastCp: int)
      requires OnRun(b, i, text, 0, i)
      ensures Untouched(i, text, 0, lastState, lastCp, lastState, lastCp)
    {}

    lemma UntouchedStep(i: int, text: seq<int>, cp: int, state: int, lastState0: int, lastCp0: int, lastState: int,
                        lastCp: int)
      requires Untouched(i, text, cp, lastState0, lastCp0, lastState, lastCp) && OnRun(b, i, text, cp, state)
      requires state < |t.accept| && cp < |text|
      ensures Untouched(i, text, cp + 1, lastState0, lastCp0, if t.accept[state] != 0 then state else lastState,
                        if t.accept[state] != 0 then cp else lastCp)
    {
      assert AcceptAt(b, t, i, text, cp) == t.accept[state];
    }

    /** yy_try_NUL_trans: the NUL behind the first n characters is looked up by its own class, or in its own table; only
        in the first case the state in front of it is noted. */
    method TryNulTrans(i: int, n: int, state: int, lastState0: int, lastCp0: int, ghost text: seq<int>)
      returns (next: int, lastState: int, lastCp: int)
      requires Valid() && 1 <= i < |b.starts| && OnRun(b, i, text, n, state)
               && Noted(b, t, i, text, n, -1, lastState0, lastCp0)
      requires n < |text| && text[n] == 0
      requires b.useNul ==> Untouched(i, text, n, b.eob, n + 1, lastState0, lastCp0)
      ensures Noted(b, t, i, text, n + 1, if b.useNul then n else -1, lastState, lastCp)
      ensures if next == 0 then StateAt0(b, i, text, n) && StateAt(b, i, text, n + 1) == 0
              else OnRun(b, i, text, n + 1, next)
    {
      hide NfaSide, DfaSide, TableSide, Noted;
      TableFacts(b, t, yyEc);
      NotedStep(b, t, i, text, n, -1, state, lastState0, lastCp0);
      lastState, lastCp := lastState0, lastCp0;
      if useNul {
        NotedForgotten(b, t, i, text, n, lastState, lastCp);
      } else if t.accept[state] != 0 {
        lastState, lastCp := state, n;
      }
      next := StepText(state, 0, i, text, n);
    }

    /** A NUL that no match can contain: the scanner backs up. One that is not interactive backs up to what has been
        noted, and with a table for NUL that is not the match in front of it. */
    method BackUp(i: int, n: int, state0: int, lastState: int, lastCp: int, interactive: bool, ghost text: seq<int>)
      returns (act: int, cp: int)
      requires Valid() && 1 <= i < |b.starts| && HasDefault(b, i) && OnRun(b, i, text, n, state0) && n < |text|
      requires Noted(b, t, i, text, n + 1, if b.useNul then n else -1, lastState, lastCp)
      requires StateAt(b, i, text, n + 1) == 0
      ensures if act == |b.rules| + 1 then b.useNul && !interactive && n == 1 && cp == 2 && OnlyAt(b, i, text, n)
              else LongestBut(b, i, text, if b.useNul && !interactive then n else -1, act, cp) && cp <= n
    {
      hide NfaSide, DfaSide, TableSide, Noted, Longest, LongestBut, Final, HasDefault, FirstRule;
      TableFacts(b, t, yyEc);
      RunState(b, i, text, n, state0);
      JamLater(b, t, yyEc, i, text, n + 1);
      ghost var skip := if b.useNul then n else -1;
      NotedLongest(b, t, yyEc, i, text, n + 1, skip, lastState, lastCp);
      FinalMeans(b, t, i, text, n + 1, skip, lastState, lastCp);
      AcceptedHere(b, t, yyEc, i, text, n, state0);
      var state;
      if interactive {
        if t.accept[state0] != 0 {
          AsBut(b, i, text, t.accept[state0], n);
        } else {
          if b.useNul { NothingForgotten(b, t, i, text, n + 1, skip, lastState, lastCp); }
          AsBut(b, i, text, t.accept[lastState], lastCp);
        }
        act, cp, state := FindAction(n, state0, lastState, lastCp);
      } else {
        act, cp, state := FindAction(lastCp, lastState, lastState, lastCp);
      }
    }

    /** The last match before the end of the input. */
    method LastMatch(i: int, n: int, state0: int, lastState: int, lastCp: int, ghost text: seq<int>)
      returns (act: int, cp: int)
      requires Valid() && 1 <= i < |b.starts| && HasDefault(b, i) && n == |text| > 0 && OnRun(b, i, text, n, state0)
      requires Noted(b, t, i, text, n, -1, lastState, lastCp)
      ensures Longest(b, i, text, act, cp) && cp <= n
    {
      hide NfaSide, DfaSide, TableSide, Noted, Longest, Final, HasDefault, FirstRule;
      TableFacts(b, t, yyEc);
      RunState(b, i, text, n, state0);
      NotedStep(b, t, i, text, n, -1, state0, lastState, lastCp);
      ghost var ls, lc := if t.accept[state0] != 0 then state0 else lastState, if t.accept[state0] != 0
              then n else lastCp;
      NotedLongest(b, t, yyEc, i, text, n + 1, -1, ls, lc);
      FinalMeans(b, t, i, text, n + 1, -1, ls, lc);
      var state;
      act, cp, state := FindAction(n, state0, lastState, lastCp);
    }
  }
}
