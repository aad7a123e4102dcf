/** A scanner that does not come back, from its rules on (main.c, gen.c, skel.c): three rules, and the text a, NUL,
    c. */
module NulExample {
  import opened Flexdef
  import opened Results
  import opened Regex
  import opened Divisions
  import opened Rules
  import opened Scanner
  import opened Compression
  import opened Templates
  import opened Matcher
  import opened Forgotten
  import opened InputBuffer
  import opened Yylex
  import opened Generate

  function FirstRules(): seq<Rule> {
    [Rule(Str([97, 0, 98]), false, false, []), Rule(Str(AllChars(128)), false, false, [])]
  }

  /** In the first start condition, which is not exclusive, all rules are active. */
  lemma AllActive(rules: seq<Rule>)
    requires rules == FirstRules() + [DefaultRule(1)]
    ensures |StartSets(rules, [false, false], 1)| == 3 && StartSets(rules, [false, false], 1)[1] == {0, 1, 2}
  {
    assert DefaultRule(1).scons == [1];
    assert ActiveIn(rules[0], 1, [false, false]) && ActiveIn(rules[1], 1, [false, false])
        && ActiveIn(rules[2], 1, [false, false]);
  }

  /** The states of a rule that is a string, in one start condition. */
  lemma StringStates(chars: seq<int>)
    requires chars != []
    ensures RuleStates(Rule(Str(chars), false, false, []), [false, false]) == |chars| + 3
  {
    assert Inclusive([false, false], 1) == 1;
  }

  /** The rules can be read, and a scanner can be built of them. */
  lemma RulesFine()
    ensures Parsed([false], FirstRules()) && Readable([false], FirstRules(), 128) && |FirstRules()| == 2
    ensures Buildable(2 + RulesStates(FirstRules(), 2, [false] + [false]), FirstRules(), 1)
  {
    hide RuleStates;
    var rules, scs := FirstRules(), [false] + [false];
    StringStates([97, 0, 98]);
    StringStates(AllChars(128));
    assert scs == [false, false];
    assert RulesStates(rules, 0, scs) == 0;
    assert RulesStates(rules, 1, scs) == 6;
    assert RulesStates(rules, 2, scs) == 137;
  }

  // ----- there are not templates too many

  function AllRules(): seq<Rule> {
    FirstRules() + [DefaultRule(1)]
  }

  lemma AllAre()
    ensures |AllRules()| == 3 && Pattern(AllRules()[0]) == Str([97, 0, 98])
    ensures Pattern(AllRules()[1]) == Str(AllChars(128)) && Pattern(AllRules()[2]) == Class([], true)
  {}

  /** The long string tells all characters apart. */
  lemma AllDiffer()
    ensures AllTold(AllRules(), 128) && AllInhabited(AllRules(), 128)
  {
    AllAre();
    assert !InItems([], 0);
    forall c, d | 0 <= c < 128 && 0 <= d < 128 && c != d ensures ToldApart(AllRules(), c, d) {
      assert AllChars(128)[c] == c;
      assert Tells(Pattern(AllRules()[1]), c, d);
    }
  }

  /** The characters that can follow behind a text that is not empty. */
  function NextChars(n: nat): set<int> {
    (if n < 3 then {[97, 0, 98][n]} else {}) + (if n < 128 then {n} else {})
  }

  lemma FewFollow(on: seq<set<int>>, i: int, w: seq<int>, c: int)
    requires w != [] && MayGoOn(AllRules(), on, 128, i, w + [c])
    ensures c in NextChars(|w|)
  {
    AllAre();
    var k, v :| RuleAt(AllRules(), on, 128, i, k, w + [c] + v);
    var u := w + [c] + v;
    assert u[|w|] == c && |u| >= 2;
    if k == 0 {
      assert u == [97, 0, 98];
    } else if k == 1 {
      assert u == AllChars(128);
    } else {
      assert false;
    }
  }

  lemma NotCrowded(on: seq<set<int>>, i: int, w: seq<int>)
    requires w != []
    ensures !Crowded(AllRules(), on, 128, 128, i, w)
  {
    hide MayGoOn;
    if Crowded(AllRules(), on, 128, 128, i, w) {
      var t :| Follows(AllRules(), on, 128, i, w, t) && Worth(|t|, 128);
      forall c | c in t ensures c in NextChars(|w|) { FewFollow(on, i, w, c); }
      FewNext(t, |w|);
    }
  }

  lemma FewNext(t: set<int>, n: nat)
    requires t <= NextChars(n)
    ensures |t| <= 2
  {
    FewNextChars(n);
    assert NextChars(n) == t + (NextChars(n) - t);
  }

  lemma FewNextChars(n: nat)
    ensures |NextChars(n)| <= 2
  {}

  lemma FewSpots(on: seq<set<int>>)
    requires |on| == 3
    ensures !Bursts(AllRules(), on, 128)
  {
    hide AllTold, TooCrowded;
    AllDiffer();
    if Bursts(AllRules(), on, 128) { NotTooCrowded(on); }
  }

  lemma StartOnly(on: seq<set<int>>, p: (int, seq<int>))
    requires |on| == 3 && Crowded(AllRules(), on, 128, 128, p.0, p.1)
    ensures p == (1, []) || p == (2, [])
  {
    hide Follows, AllRules;
    if p.1 != [] { NotCrowded(on, p.0, p.1); }
  }

  lemma AtMostTwo(spots: set<(int, seq<int>)>)
    requires forall p :: p in spots ==> p == (1, []) || p == (2, [])
    ensures |spots| <= 2
  {
    var two: set<(int, seq<int>)> := {(1, []), (2, [])};
    assert spots <= two;
    assert two == spots + (two - spots);
  }

  lemma NotTooCrowded(on: seq<set<int>>)
    requires |on| == 3
    ensures !TooCrowded(AllRules(), on, 128, 128)
  {
    hide Crowded, AllRules;
    if TooCrowded(AllRules(), on, 128, 128) {
      var spots: set<(int, seq<int>)> :| |spots| + 1 >= -JAMSTATE && AllCrowded(AllRules(), on, 128, 128, spots);
      forall p | p in spots ensures p == (1, []) || p == (2, []) { StartOnly(on, p); }
      AtMostTwo(spots);
    }
  }

  lemma NotOverloaded()
    ensures !Overloaded(FirstRules() + [DefaultRule(1)], [false] + [false], 1, 128)
  {
    hide AllInhabited, Bursts;
    AllDiffer();
    FewSpots(StartSets(AllRules(), [false] + [false], 1));
  }

  // ----- the scanner

  /** The rules are read, and the scanner is built. */
  method Build128(usemecs: bool) returns (lexer: Lexer)
    ensures lexer.Valid() && ExampleRules(lexer.b, 1, 1) && HasDefault(lexer.b, 1)
            && (lexer.b.useNul <==> lexer.b.numecs == lexer.b.csize)
  {
    hide *;
    RulesFine();
    var read := ReadRules(128, [false], FirstRules());
    var rs := read.value;
    ghost var rules, last := rs.rules, rs.nfa.lastnfa;
    NotOverloaded();
    var built := BuildScanner(rs, usemecs);
    if built.Failure? { NotUnbuildable(built.error, last, rules, 1); }
    lexer := built.value;
    RulesThere(lexer.b, rules, [false] + [false]);
  }

  lemma NotUnbuildable(e: Error, last: int, rules: seq<Rule>, lastsc: int)
    requires Buildable(last, rules, lastsc)
    ensures !Unbuildable(e, last, rules, lastsc)
  {}

  lemma RulesThere(b: Build, rules: seq<Rule>, scxclu: seq<bool>)
    requires rules == [] + [FirstRules()[0]] + [FirstRules()[1]] && scxclu == [false] + [false] && b.csize == 128
    requires b.rules == rules + [DefaultRule(1)] && |b.starts| == 3 && b.on == StartSets(b.rules, scxclu, 1)
    ensures ExampleRules(b, 1, 1) && 1 < |b.starts|
  {
    AllActive(b.rules);
  }

  /** What was only matched in front of the NUL is forgotten, and no other token fits. */
  lemma NoTokenFits(lexer: Lexer, interactive: bool, token: Token, rest: seq<int>)
    requires lexer.Valid() && ExampleRules(lexer.b, 1, 1) && (lexer.b.useNul <==> lexer.b.numecs == lexer.b.csize)
    ensures !TokenIs(lexer, 1, interactive, 0, [97, 0, 99], token, rest)
  {
    hide NfaSide, DfaSide, TableSide, FirstRule, ExampleRules, HasDefault, Forgets, Longest, LongestBut, OnlyAt;
    var b, text := lexer.b, [97, 0, 99];
    ValidSides(lexer);
    EndlessExample(b, lexer.t, lexer.yyEc, 1, 1, interactive);
    if TokenIs(lexer, 1, interactive, 0, text, token, rest) {
      var n :| Cut(b, 1, text, n, token.act, |token.text|);
      OneMatch(b, text, n, token.act, |token.text|);
    }
  }

  /** Where there is one match only, none is shorter than the longest. */
  lemma OneMatch(b: Build, text: seq<int>, n: int, act: int, len: int)
    requires OnlyAt(b, 1, text, 1)
    ensures !Cut(b, 1, text, n, act, len)
  {
    hide FirstRule;
    if Cut(b, 1, text, n, act, len) {
      var a :| Longest(b, 1, text, a, n);
      if n != 1 { FirstOne(b, 1, text[..n], a, 0); }
      if len != 1 { FirstOne(b, 1, text[..len], act, 0); }
    }
  }

  lemma NothingFilled(since: int, text: seq<int>, now: int)
    requires FilledAt(since, text, 0, now) && now >= 0
    ensures since == 0
  {}

  /** The scanner is built, and called once with the text a, NUL, c in its buffer. */
  method NeverBack(usemecs: bool, interactive: bool) returns (token: Token)
    ensures token == Endless
  {
    hide *;
    var lexer := Build128(usemecs);
    var base := new int[] [97, 0, 99, 0, 0];
    var buf := new Buffer.ScanBuffer(base, []);
    assert base[..3] == [97, 0, 99];
    TextFits(lexer);
    buf.Meaning();
    var r, since := NextToken(lexer, buf, 1, interactive);
    token := r.value;
    NothingFilled(since, [97, 0, 99], |buf.Unread()|);
    if token != Endless { NoTokenFits(lexer, interactive, token, buf.Stream()); }
  }

  lemma TextFits(lexer: Lexer)
    requires lexer.Valid() && ExampleRules(lexer.b, 1, 1)
    ensures IsText(lexer.b, [97, 0, 99]) && 1 < |lexer.b.starts|
  {
    hide NfaSide, DfaSide, TableSide;
    ValidSides(lexer);
    ExampleText(lexer.b, lexer.t, lexer.yyEc, 1, 1);
  }
}
