/** When a scanner with a table for NUL (gen.c: gen_NUL_trans) goes wrong. The code for such a table does not note the
    accepting state in front of a NUL, so that a scanner cannot back up to it. */
module Forgotten {
  import opened Abstraction
  import opened Dfa
  import opened Ecs
  import opened Gentabs
  import opened Patterns
  import opened Prefixes
  import opened Regex
  import opened Rules
  import opened Scanner
  import opened Matcher

  ghost predicate LongestAt(b: Build, i: int, text: seq<int>, n: int) {
    exists a :: Longest(b, i, text, a, n)
  }

  /** The longest match stands in front of the NUL at n, and behind this NUL the scanner reads up to m without coming to
      another NUL; or it is not interactive, and the DFA jams on the NUL at n. */
  ghost predicate ForgetsAt(b: Build, t: ScanTables, i: int, text: seq<int>, n: int, m: int, interactive: bool) {
    && IsText(b, text) && 1 <= n < |text| && text[n] == 0 && LongestAt(b, i, text, n)
    && (Stops(b, t, i, text, n + 1, m, interactive)
        || (!interactive && m == n && StateAt(b, i, text, n + 1) == 0))
  }

  /** The longest match of text is forgotten, when the buffer is filled last behind since characters, or, where since is
      0, not while this token is looked for: that recalls what stands in front. */
  ghost predicate Forgets(b: Build, t: ScanTables, i: int, text: seq<int>, since: int, interactive: bool) {
    b.useNul && exists n, m :: since <= n && ForgetsAt(b, t, i, text, n, m, interactive)
  }

  /** The scanner has begun at lo: where the buffer has been filled last, or at the beginning; or later, behind the NUL
      at skip. */
  ghost predicate Begun(text: seq<int>, lo: int, skip: int, since: int) {
    && 0 <= since <= lo <= |text| && (if lo == since then skip == -1 else skip == lo - 1 && text[skip] == 0)
  }

  /** The scanner has come from lo to p without stopping. */
  ghost predicate Reaching(b: Build, t: ScanTables, i: int, text: seq<int>, lo: int, p: int, interactive: bool) {
    && IsText(b, text) && 0 <= lo <= p <= |text|
    && StateAt(b, i, text, p) != 0 && NoNul(text, lo, p)
    && Awake(b, t, i, text, lo, p + 1, interactive)
  }

  /** Once jammed, the DFA stays so. */
  lemma StaysJammed(b: Build, t: ScanTables, yyEc: seq<int>, i: int, text: seq<int>, j: int, k: int)
    requires NfaSide(b) && DfaSide(b) && TableSide(b, t, yyEc) && 1 <= i < |b.starts|
    requires IsText(b, text) && 1 <= j <= k <= |text| && StateAt(b, i, text, j) == 0
    ensures StateAt(b, i, text, k) == 0
  {
    hide NfaSide, DfaSide, TableSide;
    if StateAt(b, i, text, k) != 0 { NotJammed(b, t, yyEc, i, text, j - 1, k); }
  }

  /** Behind an idle state the DFA jams, on NUL as well. */
  lemma IdleJams(b: Build, t: ScanTables, yyEc: seq<int>, i: int, text: seq<int>, m: int)
    requires NfaSide(b) && DfaSide(b) && TableSide(b, t, yyEc) && 1 <= i < |b.starts|
    requires IsText(b, text) && 0 <= m < |text| && Idle(b, t, i, text, m)
    ensures StateAt(b, i, text, m) != 0 ==> StateAt(b, i, text, m + 1) == 0
  {
    hide NfaSide, DfaSide, TableSide, RunsTo;
    var d := StateAt(b, i, text, m);
    if d != 0 {
      TextClasses(b, t, yyEc, text[..m]);
      OnRunAt(b, t, yyEc, i, text, m);
      TableFacts(b, t, yyEc);
      JamBase(b, t, yyEc, d);
      CharStep(b, t, yyEc, i, text, m, d);
    }
  }

  lemma OnRunAt(b: Build, t: ScanTables, yyEc: seq<int>, i: int, text: seq<int>, m: int)
    requires NfaSide(b) && DfaSide(b) && TableSide(b, t, yyEc) && 1 <= i < |b.starts|
    requires IsText(b, text) && 0 <= m <= |text| && StateAt(b, i, text, m) != 0
    ensures OnRun(b, i, text, m, StateAt(b, i, text, m))
  {
    hide NfaSide, DfaSide, TableSide;
    TextClasses(b, t, yyEc, text[..m]);
    RunMeans(b, i, EcWord(b.num, text[..m]));
  }

  /** A match leaves the DFA running. */
  lemma LongestRuns(b: Build, t: ScanTables, yyEc: seq<int>, i: int, text: seq<int>, n: int)
    requires NfaSide(b) && DfaSide(b) && TableSide(b, t, yyEc) && 1 <= i < |b.starts|
    requires IsText(b, text) && 0 <= n <= |text| && LongestAt(b, i, text, n)
    ensures StateAt(b, i, text, n) != 0
  {
    hide NfaSide, DfaSide, TableSide, FirstRule;
    var a :| Longest(b, i, text, a, n);
    if StateAt(b, i, text, n) == 0 {
      JamLater(b, t, yyEc, i, text, n);
      FirstOne(b, i, text[..n], a, 0);
    }
  }

  /** A NUL, or the end of the text, that the scanner has come to is not behind a place where it would have stopped. */
  lemma NoStop(b: Build, t: ScanTables, yyEc: seq<int>, i: int, text: seq<int>, lo: int, skip: int, since: int, p: int,
               n: int, m: int, interactive: bool)
    requires NfaSide(b) && DfaSide(b) && TableSide(b, t, yyEc) && 1 <= i < |b.starts|
    requires Begun(text, lo, skip, since) && since <= n
    requires Reaching(b, t, i, text, lo, p, interactive) && 0 <= n < |text| && text[n] == 0
    requires p < |text| ==> text[p] == 0 && StateAt(b, i, text, p + 1) == 0
    ensures !Stops(b, t, i, text, n + 1, m, interactive)
  {
    hide NfaSide, DfaSide, TableSide, StateAt, Idle;
    if Stops(b, t, i, text, n + 1, m, interactive) {
      if m > p {
        StaysJammed(b, t, yyEc, i, text, p + 1, m);
      } else if m < p {
        if Idle(b, t, i, text, m) { IdleJams(b, t, yyEc, i, text, m); }
        StaysJammed(b, t, yyEc, i, text, m + 1, p);
      }
    }
  }

  /** What the match loop has found is the longest match exactly when the scanner does not forget it. */
  lemma FoundRight(b: Build, t: ScanTables, yyEc: seq<int>, i: int, text: seq<int>, lo: int, skip: int, since: int,
                   stop: int, act: int, len: int, interactive: bool)
    requires NfaSide(b) && DfaSide(b) && TableSide(b, t, yyEc) && 1 <= i < |b.starts| && HasDefault(b, i)
    requires b.useNul && IsText(b, text) && text != [] && LongestBut(b, i, text, skip, act, len)
    requires Begun(text, lo, skip, since) && Stops(b, t, i, text, lo, stop, interactive)
    ensures Longest(b, i, text, act, len) <==> !Forgets(b, t, i, text, since, interactive)
  {
    hide NfaSide, DfaSide, TableSide, HasDefault, StateAt, Idle, Longest, LongestBut, Cut;
    if Longest(b, i, text, act, len) {
      forall n, m | since <= n ensures !ForgetsAt(b, t, i, text, n, m, interactive) {
        FoundNone(b, t, yyEc, i, text, lo, skip, since, stop, act, len, n, m, interactive);
      }
    } else {
      ButOr(b, i, text, skip, act, len);
      CutAt(b, i, text, skip, act, len);
      LongestPositive(b, i, text, skip);
      assert ForgetsAt(b, t, i, text, skip, stop, interactive);
    }
  }

  lemma CutAt(b: Build, i: int, text: seq<int>, n: int, act: int, len: int)
    requires Cut(b, i, text, n, act, len)
    ensures 0 <= n < |text| && text[n] == 0 && LongestAt(b, i, text, n)
  {}

  lemma LongestPositive(b: Build, i: int, text: seq<int>, n: int)
    requires HasDefault(b, i) && IsText(b, text) && text != [] && LongestAt(b, i, text, n)
    ensures n >= 1
  {
    hide Longest, HasDefault;
    var a :| Longest(b, i, text, a, n);
    LongestSome(b, i, text, a, n);
  }

  lemma ButLength(b: Build, i: int, text: seq<int>, skip: int, act: int, len: int, n: int)
    requires LongestBut(b, i, text, skip, act, len) && Longest(b, i, text, act, len) && LongestAt(b, i, text, n)
    ensures len == n != skip
  {
    hide FirstRule;
    var a :| Longest(b, i, text, a, n);
    OneLongest(b, i, text, act, len, a, n);
  }

  lemma FoundNone(b: Build, t: ScanTables, yyEc: seq<int>, i: int, text: seq<int>, lo: int, skip: int, since: int,
                  stop: int, act: int, len: int, n: int, m: int, interactive: bool)
    requires NfaSide(b) && DfaSide(b) && TableSide(b, t, yyEc) && 1 <= i < |b.starts|
    requires LongestBut(b, i, text, skip, act, len) && Longest(b, i, text, act, len)
    requires Begun(text, lo, skip, since) && since <= n && Stops(b, t, i, text, lo, stop, interactive)
    ensures !ForgetsAt(b, t, i, text, n, m, interactive)
  {
    hide NfaSide, DfaSide, TableSide, StateAt, Idle, Longest, LongestBut, LongestAt;
    if ForgetsAt(b, t, i, text, n, m, interactive) {
      ButLength(b, i, text, skip, act, len, n);
      LongestRuns(b, t, yyEc, i, text, n);
      if n < skip {
        // the run has passed the NUL at skip
        if m <= skip && Idle(b, t, i, text, m) { IdleJams(b, t, yyEc, i, text, m); }
        StaysJammed(b, t, yyEc, i, text, m + 1, stop);
      } else if stop < n {
        if Idle(b, t, i, text, stop) { IdleJams(b, t, yyEc, i, text, stop); }
        StaysJammed(b, t, yyEc, i, text, stop + 1, n);
      } else {
        IdleJams(b, t, yyEc, i, text, n);
        StaysJammed(b, t, yyEc, i, text, n + 1, m);
      }
    }
  }

  /** What a scanner has found that backs up in front of a NUL is the longest match exactly when it is not forgotten. */
  lemma BackUpRight(b: Build, t: ScanTables, yyEc: seq<int>, i: int, text: seq<int>, lo: int, skip: int, since: int,
                    p: int, act: int, len: int, interactive: bool)
    requires NfaSide(b) && DfaSide(b) && TableSide(b, t, yyEc) && 1 <= i < |b.starts| && HasDefault(b, i)
    requires b.useNul && text != [] && Begun(text, lo, skip, since) && Reaching(b, t, i, text, lo, p, interactive)
    requires p < |text| && text[p] == 0 && StateAt(b, i, text, p + 1) == 0
    requires LongestBut(b, i, text, if interactive then -1 else p, act, len)
    ensures Longest(b, i, text, act, len) <==> !Forgets(b, t, i, text, since, interactive)
  {
    hide NfaSide, DfaSide, TableSide, HasDefault, StateAt, Longest, LongestBut, Stops, Awake, Cut;
    if interactive { NotCut(b, i, text, act, len); }
    if Longest(b, i, text, act, len) {
      forall n, m | since <= n ensures !ForgetsAt(b, t, i, text, n, m, interactive) {
        if ForgetsAt(b, t, i, text, n, m, interactive) {
          ButLength(b, i, text, if interactive then -1 else p, act, len, n);
          LongestRuns(b, t, yyEc, i, text, n);
          NoStop(b, t, yyEc, i, text, lo, skip, since, p, n, m, interactive);
          if n < p {
            StaysJammed(b, t, yyEc, i, text, n + 1, p);
          } else {
            StaysJammed(b, t, yyEc, i, text, p + 1, n);
          }
        }
      }
    } else {
      ButOr(b, i, text, p, act, len);
      CutAt(b, i, text, p, act, len);
      LongestPositive(b, i, text, p);
      assert ForgetsAt(b, t, i, text, p, p, interactive);
    }
  }

  /** A scanner that comes to the end of the text forgets nothing. */
  lemma LastRight(b: Build, t: ScanTables, yyEc: seq<int>, i: int, text: seq<int>, lo: int, skip: int, since: int,
                  interactive: bool)
    requires NfaSide(b) && DfaSide(b) && TableSide(b, t, yyEc) && 1 <= i < |b.starts|
    requires Begun(text, lo, skip, since) && Reaching(b, t, i, text, lo, |text|, interactive)
    ensures !Forgets(b, t, i, text, since, interactive)
  {
    hide NfaSide, DfaSide, TableSide, StateAt, LongestAt, Stops, Awake;
    forall n, m | since <= n ensures !ForgetsAt(b, t, i, text, n, m, interactive) {
      if ForgetsAt(b, t, i, text, n, m, interactive) {
        NoStop(b, t, yyEc, i, text, lo, skip, since, |text|, n, m, interactive);
        StaysJammed(b, t, yyEc, i, text, n + 1, |text|);
      }
    }
  }

  /** Only the first character is matched, and a NUL stands behind it: that this has been forgotten leaves nothing. */
  lemma OnlyForgets(b: Build, t: ScanTables, i: int, text: seq<int>, since: int, m: int, interactive: bool)
    requires HasDefault(b, i) && b.useNul && IsText(b, text) && |text| > 1 && text[1] == 0 && OnlyAt(b, i, text, 1)
    requires Stops(b, t, i, text, 2, m, interactive) || (!interactive && m == 1 && StateAt(b, i, text, 2) == 0)
    requires since <= 1
    ensures Forgets(b, t, i, text, since, interactive)
  {
    hide HasDefault, FirstRule, Stops, StateAt;
    DefaultMatches(b, i, text);
    var a := SomeFirst(b, i, text[..1]);
    assert Longest(b, i, text, a, 1);
    assert ForgetsAt(b, t, i, text, 1, m, interactive);
  }

  /** Where there is no NUL nothing is forgotten. */
  lemma NulForgets(b: Build, t: ScanTables, i: int, text: seq<int>, since: int, interactive: bool)
    ensures Forgets(b, t, i, text, since, interactive) ==> b.useNul && 0 in text
  {
    hide Stops, StateAt, LongestAt;
  }

  // ----- in terms of the rules

  /** No rule matches a string that begins with w and a further character. */
  ghost predicate Ends(b: Build, i: int, w: seq<int>) {
    forall c :: 0 <= c < b.csize ==> !Continues(b, i, w + [c])
  }

  /** As ForgetsAt, said without the DFA: what counts is which strings the rules can still match. */
  ghost predicate LostAt(b: Build, i: int, text: seq<int>, n: int, m: int, interactive: bool) {
    && 1 <= n < |text| && text[n] == 0 && LongestAt(b, i, text, n)
    && if m == n then
         !interactive && !Continues(b, i, text[..n + 1])
       else
         && n < m <= |text| && NoNul(text, n + 1, m) && Continues(b, i, text[..m])
         && ((m < |text| && text[m] != 0 && !Continues(b, i, text[..m + 1]))
             || (interactive && n + 1 < m && Ends(b, i, text[..m])))
  }

  /** Every class number is that of some character. */
  lemma SomeChar(b: Build, e: int) returns (c: int)
    requires NfaSide(b) && 1 <= e <= b.numecs
    ensures 0 <= c < b.csize <= |b.num| && Ec(b.num, c) == e
  {
    hide Compacted, LabelFine, Complete, Means, AllAttached;
    assert Used(b.num, b.csize, e);
    var x :| 1 <= x <= b.csize && b.num[x] == e;
    c := if x == b.csize then 0 else x;
  }

  lemma RunsOn(b: Build, t: ScanTables, yyEc: seq<int>, i: int, text: seq<int>, m: int)
    requires NfaSide(b) && DfaSide(b) && TableSide(b, t, yyEc) && 1 <= i < |b.starts| && AllInhabited(b.rules, b.csize)
    requires IsText(b, text) && 1 <= m <= |text|
    ensures StateAt(b, i, text, m) != 0 <==> Continues(b, i, text[..m])
  {
    hide NfaSide, DfaSide, TableSide, AllInhabited, Continues;
    JamsExactly(b, i, text[..m]);
  }

  /** An idle state is one from which no rule goes on. */
  lemma IdleEnds(b: Build, t: ScanTables, yyEc: seq<int>, i: int, text: seq<int>, m: int)
    requires NfaSide(b) && DfaSide(b) && TableSide(b, t, yyEc) && 1 <= i < |b.starts| && AllInhabited(b.rules, b.csize)
    requires IsText(b, text) && 1 <= m <= |text| && StateAt(b, i, text, m) != 0
    ensures Idle(b, t, i, text, m) <==> Ends(b, i, text[..m])
  {
    hide NfaSide, DfaSide, TableSide, AllInhabited, Continues, OnRun;
    var d := StateAt(b, i, text, m);
    OnRunAt(b, t, yyEc, i, text, m);
    RunState(b, i, text, m, d);
    TableFacts(b, t, yyEc);
    if Idle(b, t, i, text, m) {
      JamBase(b, t, yyEc, d);
      forall c | 0 <= c < b.csize ensures !Continues(b, i, text[..m] + [c]) {
        NextRow(b, t, yyEc, i, text, m, d, c);
      }
    }
    if Ends(b, i, text[..m]) {
      var row := b.rows[d - 1];
      forall e | 1 <= e <= b.numecs && e < |row| ensures row[e] == 0 {
        var c := SomeChar(b, e);
        NextRow(b, t, yyEc, i, text, m, d, c);
      }
      JamBaseBack(b, t, yyEc, d);
    }
  }

  /** The row of a state says with which characters a rule goes on. */
  lemma NextRow(b: Build, t: ScanTables, yyEc: seq<int>, i: int, text: seq<int>, m: int, d: int, c: int)
    requires NfaSide(b) && DfaSide(b) && TableSide(b, t, yyEc) && 1 <= i < |b.starts| && AllInhabited(b.rules, b.csize)
    requires OnRun(b, i, text, m, d) && 0 <= c < b.csize <= |b.num|
    ensures 1 <= Ec(b.num, c) <= b.numecs && Ec(b.num, c) < |b.rows[d - 1]|
    ensures b.rows[d - 1][Ec(b.num, c)] != 0 <==> Continues(b, i, text[..m] + [c])
  {
    hide NfaSide, DfaSide, TableSide, AllInhabited, Continues;
    var longer := text[..m] + [c];
    assert longer[..m] == text[..m] && longer[..m + 1] == longer;
    CharStep(b, t, yyEc, i, longer, m, d);
    RunsOn(b, t, yyEc, i, longer, m + 1);
  }

  /** The condition under which a scanner forgets the longest match, in terms of the rules. */
  lemma ForgetsMeans(b: Build, t: ScanTables, yyEc: seq<int>, i: int, text: seq<int>, since: int, interactive: bool)
    requires NfaSide(b) && DfaSide(b) && TableSide(b, t, yyEc) && 1 <= i < |b.starts| && AllInhabited(b.rules, b.csize)
    requires IsText(b, text)
    ensures Forgets(b, t, i, text, since, interactive)
            <==> b.useNul && exists n, m :: since <= n && LostAt(b, i, text, n, m, interactive)
  {
    hide NfaSide, DfaSide, TableSide, AllInhabited, LostAt, ForgetsAt;
    forall n, m ensures ForgetsAt(b, t, i, text, n, m, interactive) <==> LostAt(b, i, text, n, m, interactive) {
      SameAt(b, t, yyEc, i, text, n, m, interactive);
    }
  }

  lemma SameAt(b: Build, t: ScanTables, yyEc: seq<int>, i: int, text: seq<int>, n: int, m: int, interactive: bool)
    requires NfaSide(b) && DfaSide(b) && TableSide(b, t, yyEc) && 1 <= i < |b.starts| && AllInhabited(b.rules, b.csize)
    requires IsText(b, text)
    ensures ForgetsAt(b, t, i, text, n, m, interactive) <==> LostAt(b, i, text, n, m, interactive)
  {
    hide NfaSide, DfaSide, TableSide, AllInhabited, Continues, StateAt, Idle, Ends, LongestAt;
    if 1 <= n < |text| { RunsOn(b, t, yyEc, i, text, n + 1); }
    if 1 <= m <= |text| {
      RunsOn(b, t, yyEc, i, text, m);
      if StateAt(b, i, text, m) != 0 { IdleEnds(b, t, yyEc, i, text, m); }
      if m < |text| { RunsOn(b, t, yyEc, i, text, m + 1); }
    }
  }

  // ----- an example

  function AllChars(csize: nat): seq<int> {
    seq(csize, k => k)
  }

  /** Three rules: the characters a, NUL and b in a row, all characters in a row, and the default rule. */
  ghost predicate ExampleRules(b: Build, i: int, lastsc: nat) {
    && b.csize >= 128 && 1 <= i < |b.starts| && i < |b.on| && b.on[i] == {0, 1, 2}
    && b.rules == [Rule(Str([97, 0, 98]), false, false, []), Rule(Str(AllChars(b.csize)), false, false, []),
                   DefaultRule(lastsc)]
  }

  lemma ExampleMatches(b: Build, i: int, lastsc: nat, w: seq<int>)
    requires ExampleRules(b, i, lastsc)
    ensures RuleMatches(b, i, 0, w) <==> w == [97, 0, 98]
    ensures RuleMatches(b, i, 1, w) <==> w == AllChars(b.csize)
    ensures RuleMatches(b, i, 2, w) <==> |w| == 1 && 0 <= w[0] < b.csize
    ensures |w| != 1 && w != [97, 0, 98] && |w| < 128 ==> FirstRule(b, i, w, 0)
  {
    assert Pattern(b.rules[0]) == Str([97, 0, 98]) && Pattern(b.rules[1]) == Str(AllChars(b.csize));
    assert Pattern(b.rules[2]) == Class([], true);
    if |w| == 1 { assert w == [w[0]]; }
    forall k | RuleMatches(b, i, k, w) ensures k == 0 || k == 1 || k == 2 { assert k in b.on[i]; }
  }

  /** Rules do not tell characters of one class apart. */
  lemma ClassTwins(b: Build, i: int, k: int, w: seq<int>, p: nat, c: int)
    requires NfaSide(b) && 1 <= i < |b.starts| && IsText(b, w) && p < |w| && 0 <= c < b.csize
    requires 0 <= k < |b.rules| && Ec(b.num, c) == Ec(b.num, w[p])
    ensures RuleMatches(b, i, k, w) ==> RuleMatches(b, i, k, w[p := c])
  {
    hide Abstracts, Complete, AllAttached, Means, RuleMatches;
    MeansSizes(b.rules, b.infos, b.cls, b.csize);
    MatchReaches(b, i, k, w);
    MatchReaches(b, i, k, w[p := c]);
    assert EcWord(b.num, w[p := c]) == EcWord(b.num, w);
  }

  /** With these rules every character has a class of its own. */
  lemma ExampleClasses(b: Build, t: ScanTables, yyEc: seq<int>, i: int, lastsc: nat)
    requires NfaSide(b) && TableSide(b, t, yyEc) && ExampleRules(b, i, lastsc)
    ensures b.numecs == b.csize
  {
    hide NfaSide, RuleMatches, Holds, Parted, AllLive;
    var all := AllChars(b.csize);
    var m := EcWord(b.num, all);
    ExampleMatches(b, i, lastsc, all);
    forall p, q | 0 <= p < q < |m| ensures m[p] != m[q] {
      if m[p] == m[q] {
        ClassTwins(b, i, 1, all, p, q);
        ExampleMatches(b, i, lastsc, all[p := q]);
      }
    }
    DistinctSize(m, 0, b.numecs + 1);
    NoMoreClasses(b);
  }

  lemma NoMoreClasses(b: Build)
    requires NfaSide(b) && b.numecs >= 1
    ensures b.numecs <= b.csize
  {
    hide Compacted, LabelFine, Complete, Means, AllAttached;
    var _ := UsedBehind(b.before, b.num, b.csize, b.numecs, b.numecs);
  }

  /** No rule matches a string that begins with a, NUL, c. */
  lemma ExampleJams(b: Build, i: int, lastsc: nat)
    requires NfaSide(b) && DfaSide(b) && ExampleRules(b, i, lastsc) && IsText(b, [97, 0, 99])
    ensures StateAt(b, i, [97, 0, 99], 3) == 0
  {
    hide NfaSide, DfaSide, RuleMatches;
    var w := [97, 0, 99];
    ExampleInhabited(b, i, lastsc);
    assert w[..3] == w;
    JamsExactly(b, i, w);
    forall k, v ensures !RuleMatches(b, i, k, w + v) {
      ExampleMatches(b, i, lastsc, w + v);
      assert (w + v)[0] == 97 && (w + v)[2] == 99;
      if RuleMatches(b, i, k, w + v) { MatchesRule(b, i, k, w + v); }
    }
  }

  lemma ExampleInhabited(b: Build, i: int, lastsc: nat)
    requires ExampleRules(b, i, lastsc)
    ensures AllInhabited(b.rules, b.csize)
  {
    assert !InItems([], 0);
    assert Inhabited(Class([], true), b.csize);
  }

  lemma MatchesRule(b: Build, i: int, k: int, w: seq<int>)
    requires RuleMatches(b, i, k, w)
    ensures 0 <= k < |b.rules|
  {}

  /** A scanner for these rules has a table for NUL. It does not come back from the text a, NUL, c: the a, which the
      default rule matches, has been forgotten. */
  lemma EndlessExample(b: Build, t: ScanTables, yyEc: seq<int>, i: int, lastsc: nat, interactive: bool)
    requires NfaSide(b) && DfaSide(b) && TableSide(b, t, yyEc) && ExampleRules(b, i, lastsc)
    requires b.useNul <==> b.numecs == b.csize
    ensures IsText(b, [97, 0, 99])
    ensures b.useNul && HasDefault(b, i) && OnlyAt(b, i, [97, 0, 99], 1)
    ensures Forgets(b, t, i, [97, 0, 99], 0, interactive)
  {
    hide NfaSide, DfaSide, TableSide, FirstRule, RuleMatches, StateAt, ExampleRules;
    var text, other := [97, 0, 99], [97, 0, 98];
    ExampleClasses(b, t, yyEc, i, lastsc);
    ExampleText(b, t, yyEc, i, lastsc);
    ExampleJams(b, i, lastsc);
    ExampleDefault(b, i, lastsc);
    forall j | 0 <= j <= |text| && j != 1 ensures FirstRule(b, i, text[..j], 0) {
      if j == 3 { assert text[..j][2] == 99; }
      ExampleMatches(b, i, lastsc, text[..j]);
    }
    ExampleRuns(b, t, yyEc, i, lastsc);
    SamePrefix(b, i, text, other, 2);
    assert Stops(b, t, i, text, 2, 2, interactive);
    OnlyForgets(b, t, i, text, 0, 2, interactive);
  }

  lemma ExampleText(b: Build, t: ScanTables, yyEc: seq<int>, i: int, lastsc: nat)
    requires TableSide(b, t, yyEc) && ExampleRules(b, i, lastsc)
    ensures IsText(b, [97, 0, 99])
  {
    hide Holds, Parted, AllLive;
  }

  lemma ExampleDefault(b: Build, i: int, lastsc: nat)
    requires ExampleRules(b, i, lastsc)
    ensures HasDefault(b, i) && 1 <= i < |b.starts|
  {
    forall c | 0 <= c < b.csize ensures SomeRule(b, i, [c]) {
      ExampleMatches(b, i, lastsc, [c]);
    }
  }

  lemma SamePrefix(b: Build, i: int, text: seq<int>, other: seq<int>, j: int)
    requires IsText(b, text) && IsText(b, other) && 0 <= j <= |text| && j <= |other| && text[..j] == other[..j]
    ensures StateAt(b, i, text, j) == StateAt(b, i, other, j)
  {}

  lemma ExampleRuns(b: Build, t: ScanTables, yyEc: seq<int>, i: int, lastsc: nat)
    requires NfaSide(b) && DfaSide(b) && TableSide(b, t, yyEc) && ExampleRules(b, i, lastsc)
    requires IsText(b, [97, 0, 99])
    ensures IsText(b, [97, 0, 98]) && StateAt(b, i, [97, 0, 98], 2) != 0
  {
    hide NfaSide, DfaSide, TableSide, FirstRule, RuleMatches, StateAt;
    var other := [97, 0, 98];
    ExampleMatches(b, i, lastsc, other);
    assert other[..3] == other;
    if StateAt(b, i, other, 2) == 0 {
      StaysJammed(b, t, yyEc, i, other, 2, 3);
      JamLater(b, t, yyEc, i, other, 3);
      NoRule(b, i, other, 0);
    }
  }

  lemma NoRule(b: Build, i: int, w: seq<int>, k: int)
    requires FirstRule(b, i, w, 0)
    ensures !RuleMatches(b, i, k, w)
  {}
}
