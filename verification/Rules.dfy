/** Rules and start conditions: every rule becomes a machine with its own accepting number, and the start
    conditions lead to the machines of the rules active in them (parse.y, sym.c, the start of ntod). */
module Rules {
  import opened Flexdef
  import opened Results
  import opened Languages
  import opened Nets
  import opened Machines
  import opened Ccl
  import opened Nfa
  import opened Regex
  import opened Divisions
  import opened Patterns

  /** A rule: its pattern, whether it is anchored by ^ or $, and the start conditions it is given for. */
  datatype Rule = Rule(re: Re, bol: bool, eol: bool, scons: seq<int>)

  /** The pattern with its anchor $: the newline is matched as well. */
  function Pattern(rule: Rule): Re {
    if rule.eol then Seq(rule.re, Str([10])) else rule.re
  }

  /** The rule behind all others: it matches any character in every start condition. */
  function DefaultRule(lastsc: nat): Rule {
    Rule(Class([], true), false, false, seq(lastsc, i => i + 1))
  }

  /** The rule is meant for start condition sc: it is listed for it, or it has no list and sc is not exclusive. */
  predicate ActiveIn(rule: Rule, sc: int, scxclu: seq<bool>)
    requires 0 <= sc < |scxclu|
  {
    if rule.scons != [] then sc in rule.scons else !scxclu[sc]
  }

  /** The rules meant for start condition sc, those with ^ or those without. */
  ghost function Wanted(rules: seq<Rule>, scxclu: seq<bool>, sc: int, bol: bool): set<int>
    requires 0 <= sc < |scxclu|
  {
    set k | 0 <= k < |rules| && rules[k].bol == bol && ActiveIn(rules[k], sc, scxclu)
  }

  /** The machine of a rule and its label language. */
  datatype Info = Info(m: Mach, l: Lang)

  ghost predicate InfoOk(s: Arrays, k: int, info: Info) {
    && Fits(s) && IsMachine(s.net, info.m) && info.m.hi <= s.net.last && s.net.tc[info.m.final] == SYM_EPSILON
    && s.accptnum[info.m.final] == k + 1 && Accepts(s.net, info.m) == info.l
  }

  ghost predicate InfosOk(s: Arrays, infos: seq<Info>) {
    && (forall k :: 0 <= k < |infos| ==> InfoOk(s, k, infos[k]))
    && (forall j, k :: 0 <= j < k < |infos| ==> infos[j].m.hi < infos[k].m.lo)
  }

  /** Only the final states of the rules accept. */
  ghost predicate AccOnly(s: Arrays, infos: seq<Info>) {
    Fits(s) && forall st :: 1 <= st <= s.net.last && s.accptnum[st] != 0 ==> IsFinal(infos, st)
  }

  ghost predicate IsFinal(infos: seq<Info>, st: int) {
    exists k :: 0 <= k < |infos| && infos[k].m.final == st
  }

  /** From st the machines of exactly the rules in on are matched. */
  ghost predicate Attached(n: Net, st: int, on: set<int>, infos: seq<Info>) {
    && 1 <= st <= n.last
    && forall k :: 0 <= k < |infos| ==> Words(n, st, infos[k].m.final) == if k in on then infos[k].l else iset{}
  }

  /** st is an epsilon state that does not accept, and to which no symbol leads. */
  ghost predicate Plain(s: Arrays, st: int) {
    Fits(s) && 1 <= st <= s.net.last && s.net.tc[st] == SYM_EPSILON && s.accptnum[st] == 0
    && Unled(s.net, 1, s.net.last, st)
  }

  /** New states do not lead to old ones. */
  lemma UnledLater(n: Net, n': Net, st: int)
    requires AgreeOn(n, n', 1, n.last) && 1 <= st <= n.last && Unled(n, 1, n.last, st)
    requires forall x :: n.last < x <= n'.last && Solid(n', x) ==> n'.t1[x] == 0 || n'.t1[x] > n.last
    ensures Unled(n', 1, n'.last, st)
  {
    forall x | 1 <= x <= n'.last && Solid(n', x) ensures n'.t1[x] != st {
      if x <= n.last { assert Solid(n, x); }
    }
  }

  lemma UnledNew(n: Net, n': Net)
    requires AgreeOn(n, n', 1, n.last) && Closed(n, 1, n.last)
    requires n'.last == n.last + 1 && n'.tc[n'.last] == SYM_EPSILON
    ensures Unled(n', 1, n'.last, n'.last)
  {}

  ghost predicate AllAttached(s: Arrays, states: seq<int>, on: seq<set<int>>, infos: seq<Info>) {
    && |states| == |on|
    && (forall i :: 1 <= i < |states| ==> Attached(s.net, states[i], on[i], infos) && Plain(s, states[i]))
    && (forall i, j :: 1 <= i < j < |states| ==> states[i] != states[j])
  }

  /** Every state with a symbol leads to the final state of some rule. */
  ghost predicate AllLead(n: Net, infos: seq<Info>) {
    forall st :: Solid(n, st) ==> LeadsToRule(n, infos, st)
  }

  ghost predicate LeadsToRule(n: Net, infos: seq<Info>, st: int) {
    exists k :: 0 <= k < |infos| && Way(n, st, infos[k].m.final)
  }

  /** The NFA as a whole. */
  ghost predicate Complete(s: Arrays, infos: seq<Info>) {
    Fits(s) && Region(s.net, 1, s.net.last, 0, 0) && InfosOk(s, infos) && AccOnly(s, infos) && AllLead(s.net, infos)
  }

  // ----- a new rule

  /** A complete machine has been added. */
  lemma RuleAdded(a: Arrays, b: Arrays, m: int, l: Lang, infos: seq<Info>)
    requires Complete(a, infos) && RuleMade(a, b, m, a.net.last + 1, |infos| + 1, l)
    ensures Complete(b, infos + [Info(At(b, m), l)]) && Attached(b.net, m, {|infos|}, infos + [Info(At(b, m), l)])
  {
    RuleRegion(a, b, m, l, |infos| + 1);
    RuleInfos(a, b, m, l, infos);
    RuleLeads(a, b, m, l, infos);
    hide Words, Region, IsMachine, AllLead;
    var infos' := infos + [Info(At(b, m), l)];
    forall k | 0 <= k < |infos'| ensures Words(b.net, m, infos'[k].m.final) == if k in {|infos|}
        then infos'[k].l else iset{} {
      if k < |infos| { RuleApart(a, b, m, l, infos, k); }
    }
    assert AccOnly(b, infos') by {
      forall st | 1 <= st <= b.net.last && b.accptnum[st] != 0 ensures IsFinal(infos', st) {
        if st <= a.net.last {
          assert SameAt(a, b, st);
          var k :| 0 <= k < |infos| && infos[k].m.final == st;
          assert infos'[k].m.final == st;
        } else {
          assert infos'[|infos|].m.final == st;
        }
      }
    }
  }

  lemma RuleLeads(a: Arrays, b: Arrays, m: int, l: Lang, infos: seq<Info>)
    requires Complete(a, infos) && RuleMade(a, b, m, a.net.last + 1, |infos| + 1, l)
    ensures AllLead(b.net, infos + [Info(At(b, m), l)])
  {
    var infos' := infos + [Info(At(b, m), l)];
    SameAgree(a, b, a.net.last + 1);
    hide Words, Lone, Onward, Tidy, Unled, InfosOk, AccOnly;
    forall st | Solid(b.net, st) ensures LeadsToRule(b.net, infos', st) {
      if st <= a.net.last {
        assert Solid(a.net, st);
        OldLeads(a.net, b.net, infos, st);
        var k :| 0 <= k < |infos| && Way(b.net, st, infos[k].m.final);
        assert infos'[k] == infos[k];
      } else {
        assert Way(b.net, st, At(b, m).final);
        assert infos'[|infos|].m.final == At(b, m).final;
      }
    }
  }

  lemma OldLeads(n: Net, n': Net, infos: seq<Info>, st: int)
    requires Closed(n, 1, n.last) && AgreeOn(n, n', 1, n.last) && AllLead(n, infos) && Solid(n, st)
    ensures LeadsToRule(n', infos, st)
  {
    hide Words;
    assert LeadsToRule(n, infos, st);
    var k :| 0 <= k < |infos| && Way(n, st, infos[k].m.final);
    Frame(n, n', 1, n.last, st, infos[k].m.final);
    assert Way(n', st, infos[k].m.final);
  }

  lemma RuleApart(a: Arrays, b: Arrays, m: int, l: Lang, infos: seq<Info>, k: int)
    requires InfosOk(a, infos) && 0 <= k < |infos| && RuleMade(a, b, m, a.net.last + 1, |infos| + 1, l)
    ensures Words(b.net, m, infos[k].m.final) == iset{}
  {
    assert InfoOk(a, k, infos[k]);
    Confined(b.net, a.net.last + 1, b.net.last, m, infos[k].m.final);
  }

  lemma SameAgree(a: Arrays, b: Arrays, k: int)
    requires SameBelow(a, b, k)
    ensures AgreeOn(a.net, b.net, 1, k - 1)
  {
    forall s | 1 <= s < k
      ensures a.net.tc[s] == b.net.tc[s] && a.net.t1[s] == b.net.t1[s] && a.net.t2[s] == b.net.t2[s]
    {
      assert SameAt(a, b, s);
    }
  }

  lemma RuleRegion(a: Arrays, b: Arrays, m: int, l: Lang, acc: int)
    requires Fits(a) && Region(a.net, 1, a.net.last, 0, 0) && RuleMade(a, b, m, a.net.last + 1, acc, l)
    ensures Region(b.net, 1, b.net.last, 0, 0)
  {
    SameAgree(a, b, a.net.last + 1);
    if a.net.last >= 1 {
      assert Unled(a.net, 1, a.net.last, 0);
      RegionKept(a.net, b.net, 1, a.net.last, 0, 0, 0);
    }
    var lo, hi := a.net.last + 1, b.net.last;
    assert Onward(b.net, lo, hi, 0, 0);
    assert Lone(b.net, 1, hi) by {
      forall x, y | 1 <= x <= hi && 1 <= y <= hi && Solid(b.net, x) && Solid(b.net, y) && b.net.t1[x] == b.net.t1[y]
          && Solid(b.net, b.net.t1[x])
        ensures x == y
      {}
    }
  }

  lemma RuleInfos(a: Arrays, b: Arrays, m: int, l: Lang, infos: seq<Info>)
    requires InfosOk(a, infos) && RuleMade(a, b, m, a.net.last + 1, |infos| + 1, l)
    ensures InfosOk(b, infos + [Info(At(b, m), l)])
  {
    var infos' := infos + [Info(At(b, m), l)];
    InfosKept(a, b, infos, a.net.last + 1);
    forall k | 0 <= k < |infos'| ensures InfoOk(b, k, infos'[k]) {
      if k < |infos| { assert InfoOk(b, k, infos[k]); }
    }
    forall j, k | 0 <= j < k < |infos'| ensures infos'[j].m.hi < infos'[k].m.lo {
      assert InfoOk(a, j, infos[j]);
    }
  }

  lemma InfosKept(a: Arrays, b: Arrays, infos: seq<Info>, k: int)
    requires InfosOk(a, infos) && SameBelow(a, b, k) && k == a.net.last + 1
    ensures InfosOk(b, infos)
  {
    SameAgree(a, b, k);
    forall i | 0 <= i < |infos| ensures InfoOk(b, i, infos[i]) {
      assert InfoOk(a, i, infos[i]);
      assert SameAt(a, b, infos[i].m.final);
      Kept(a.net, b.net, infos[i].m);
    }
  }

  /** What was attached to a state stays so when states are added behind all others. */
  lemma AttachedKept(a: Arrays, b: Arrays, st: int, on: set<int>, infos: seq<Info>, m: int, l: Lang)
    requires Complete(a, infos) && Attached(a.net, st, on, infos) && RuleMade(a, b, m, a.net.last + 1, |infos| + 1, l)
    requires forall k :: k in on ==> k < |infos|
    ensures Attached(b.net, st, on, infos + [Info(At(b, m), l)])
  {
    SameAgree(a, b, a.net.last + 1);
    var infos' := infos + [Info(At(b, m), l)];
    assert Closed(a.net, 1, a.net.last);
    hide Words, Region, IsMachine;
    forall k | 0 <= k < |infos'| ensures Words(b.net, st, infos'[k].m.final) == if k in on then infos'[k].l
        else iset{} {
      Frame(a.net, b.net, 1, a.net.last, st, infos'[k].m.final);
      if k == |infos| { NewFinalApart(a, b, m, l, infos, st); }
    }
  }

  lemma NewFinalApart(a: Arrays, b: Arrays, m: int, l: Lang, infos: seq<Info>, st: int)
    requires Complete(a, infos) && RuleMade(a, b, m, a.net.last + 1, |infos| + 1, l) && 1 <= st <= a.net.last
    ensures Words(a.net, st, At(b, m).final) == iset{}
  {
    Confined(a.net, 1, a.net.last, st, At(b, m).final);
  }

  lemma AllKept(a: Arrays, b: Arrays, states: seq<int>, on: seq<set<int>>, infos: seq<Info>, m: int, l: Lang)
    requires Complete(a, infos) && AllAttached(a, states, on, infos)
             && RuleMade(a, b, m, a.net.last + 1, |infos| + 1, l)
    requires forall i, k :: 1 <= i < |on| && k in on[i] ==> k < |infos|
    ensures AllAttached(b, states, on, infos + [Info(At(b, m), l)])
  {
    var infos' := infos + [Info(At(b, m), l)];
    SameAgree(a, b, a.net.last + 1);
    RuleClosed(a, b, m, l, |infos| + 1);
    hide Unled, Complete, RuleMade, Attached, AgreeOn;
    forall i | 1 <= i < |states| ensures Attached(b.net, states[i], on[i], infos') && Plain(b, states[i]) {
      AttachedKept(a, b, states[i], on[i], infos, m, l);
      PlainLater(a, b, states[i]);
    }
  }

  lemma RuleClosed(a: Arrays, b: Arrays, m: int, l: Lang, acc: int)
    requires Fits(a) && RuleMade(a, b, m, a.net.last + 1, acc, l)
    ensures SameBelow(a, b, a.net.last + 1)
    ensures forall x :: a.net.last < x <= b.net.last && Solid(b.net, x) ==> b.net.t1[x] == 0 || b.net.t1[x] > a.net.last
  {}

  lemma PlainLater(a: Arrays, b: Arrays, st: int)
    requires Plain(a, st) && SameBelow(a, b, a.net.last + 1)
    requires forall x :: a.net.last < x <= b.net.last && Solid(b.net, x)
               ==> b.net.t1[x] == 0 || b.net.t1[x] > a.net.last
    ensures Plain(b, st)
  {
    hide Unled;
    SameAgree(a, b, a.net.last + 1);
    assert SameAt(a, b, st);
    UnledLater(a.net, b.net, st);
  }

  // ----- mkbranch

  lemma BranchWhole(a: Arrays, d: Arrays, e: int, first: int, second: int, infos: seq<Info>)
    requires Complete(a, infos) && Branched(a, d, e, first, second) && 1 <= first <= a.net.last
             && 1 <= second <= a.net.last
    ensures Complete(d, infos) && Plain(d, e)
  {
    hide Words, AllLead, Region, InfosOk, IsFinal;
    SameAgree(a, d, e);
    InfosKept(a, d, infos, e);
    BranchRegion(a.net, d.net, e);
    BranchLeads(a.net, d.net, e, infos);
    UnledNew(a.net, d.net);
    forall st | 1 <= st <= d.net.last && d.accptnum[st] != 0 ensures IsFinal(infos, st) {
      if st < e { assert SameAt(a, d, st); }
    }
  }

  /** A new epsilon state with two transitions. */
  lemma BranchRegion(n: Net, n': Net, e: int)
    requires Region(n, 1, n.last, 0, 0) && AgreeOn(n, n', 1, n.last) && e == n'.last == n.last + 1
    requires n'.tc[e] == SYM_EPSILON && 1 <= n'.t1[e] <= n.last && 1 <= n'.t2[e] <= n.last
    ensures Region(n', 1, e, 0, 0) && Closed(n, 1, n.last)
  {
    assert Unled(n, 1, n.last, 0);
    RegionKept(n, n', 1, n.last, 0, 0, 0);
    assert Lone(n', 1, e) by {
      forall x, y | 1 <= x <= e && 1 <= y <= e && Solid(n', x) && Solid(n', y) && n'.t1[x] == n'.t1[y]
          && Solid(n', n'.t1[x])
        ensures x == y
      {}
    }
  }

  lemma BranchLeads(n: Net, n': Net, e: int, infos: seq<Info>)
    requires Closed(n, 1, n.last) && AllLead(n, infos) && AgreeOn(n, n', 1, n.last)
    requires e == n'.last == n.last + 1 && n'.tc[e] == SYM_EPSILON
    ensures AllLead(n', infos)
  {
    hide LeadsToRule;
    forall st | Solid(n', st) ensures LeadsToRule(n', infos, st) {
      assert Solid(n, st);
      OldLeads(n, n', infos, st);
    }
  }

  lemma BranchAttached(a: Arrays, d: Arrays, e: int, first: int, second: int, infos: seq<Info>, on1: set<int>,
                       on2: set<int>)
    requires InfosOk(a, infos) && Branched(a, d, e, first, second)
    requires Attached(a.net, first, on1, infos) && Attached(a.net, second, on2, infos)
    ensures Attached(d.net, e, on1 + on2, infos)
  {
    hide Words;
    forall k | 0 <= k < |infos| ensures Words(d.net, e, infos[k].m.final) == if k in on1 + on2
        then infos[k].l else iset{} {
      assert InfoOk(a, k, infos[k]);
      Unite(Words(a.net, first, infos[k].m.final), Words(a.net, second, infos[k].m.final), infos[k].l,
          k in on1, k in on2);
    }
  }

  lemma Unite(x: Lang, y: Lang, l: Lang, p: bool, q: bool)
    requires x == (if p then l else iset{}) && y == if q then l else iset{}
    ensures x + y == if p || q then l else iset{}
  {}

  lemma BranchKeeps(a: Arrays, d: Arrays, e: int, first: int, second: int, infos: seq<Info>, st: int, on: set<int>)
    requires InfosOk(a, infos) && Branched(a, d, e, first, second) && Attached(a.net, st, on, infos)
    ensures Attached(d.net, st, on, infos)
  {
    hide Words;
  }

  lemma BranchAllKept(a: Arrays, d: Arrays, e: int, first: int, second: int, infos: seq<Info>, states: seq<int>,
                      on: seq<set<int>>)
    requires InfosOk(a, infos) && Branched(a, d, e, first, second) && AllAttached(a, states, on, infos)
    ensures AllAttached(d, states, on, infos)
  {
    hide Unled, Attached, InfosOk, Words;
    forall i | 1 <= i < |states| ensures Attached(d.net, states[i], on[i], infos) && Plain(d, states[i]) {
      BranchKeeps(a, d, e, first, second, infos, states[i], on[i]);
      PlainLater(a, d, states[i]);
    }
  }

  /** states[i] is replaced by the new branch. */
  lemma BranchInto(a: Arrays, d: Arrays, e: int, first: int, second: int, infos: seq<Info>, states: seq<int>,
                   on: seq<set<int>>, i: int, on2: set<int>)
    requires Complete(a, infos) && Branched(a, d, e, first, second) && AllAttached(a, states, on, infos)
    requires 1 <= i < |states| && first == states[i] && Attached(a.net, second, on2, infos)
    ensures AllAttached(d, states[i := e], on[i := on[i] + on2], infos)
  {
    BranchWhole(a, d, e, first, second, infos);
    BranchAllKept(a, d, e, first, second, infos, states, on);
    BranchAttached(a, d, e, first, second, infos, on[i], on2);
  }

  /** Every rule's machine reads exactly the strings of its pattern. */
  ghost predicate Means(rules: seq<Rule>, infos: seq<Info>, cls: seq<ClassInfo>, csize: int) {
    && |rules| == |infos|
    && (forall k :: 0 <= k < |rules| ==> MeansAt(rules[k], infos[k].l, cls, csize))
    && (AllInhabited(rules, csize) ==> NoneEmpty(cls, csize))
  }

  ghost predicate AllInhabited(rules: seq<Rule>, csize: int) {
    forall k :: 0 <= k < |rules| ==> Inhabited(Pattern(rules[k]), csize)
  }

  // ----- how many states the rules need

  /** The start conditions up to n that are not exclusive. */
  function Inclusive(scxclu: seq<bool>, n: nat): nat {
    if n == 0 then 0 else Inclusive(scxclu, n - 1) + if n < |scxclu| && !scxclu[n] then 1 else 0
  }

  /** The states that mkbranch makes to attach a rule. */
  function BranchStates(rule: Rule, scxclu: seq<bool>): nat {
    if rule.scons != [] then |rule.scons| else if scxclu == [] then 0 else Inclusive(scxclu, |scxclu| - 1)
  }

  function MachineStates(re: Re): nat {
    States(re) + AcceptStates(End(re))
  }

  function RuleStates(rule: Rule, scxclu: seq<bool>): nat {
    MachineStates(Pattern(rule)) + BranchStates(rule, scxclu)
  }

  /** Why a rule is not read: there are too many of them or too many states, or a character is outside the set. */
  ghost predicate RuleRefused(e: Error, last: int, numRules: int, rule: Rule, scxclu: seq<bool>, csize: int) {
    || (e == TooManyRules && numRules >= MAX_RULE)
    || (e == BadCharacter && !Held(Pattern(rule), csize))
    || (e == TooManyStates && last + RuleStates(rule, scxclu) > MOST_STATES)
  }

  ghost predicate RuleRead(last: int, after: int, numRules: int, rule: Rule, scxclu: seq<bool>, csize: int) {
    numRules < MAX_RULE && Held(Pattern(rule), csize) && after == last + RuleStates(rule, scxclu)
  }

  lemma TooManyRefused(last: int, numRules: int, rule: Rule, scxclu: seq<bool>, csize: int)
    ensures TooMany(numRules + 1) ==> RuleRefused(TooManyRules, last, numRules, rule, scxclu, csize)
  {}

  lemma PatternRefused(e: Error, last: int, numRules: int, rule: Rule, scxclu: seq<bool>, csize: int)
    requires Refused(e, last, Pattern(rule), csize)
    ensures RuleRefused(e, last, numRules, rule, scxclu, csize)
  {}

  /** The accepting number needs a state where the pattern ends in a symbol. */
  lemma MachineRead(last: int, b: Arrays, m: int, re: Re, csize: int)
    requires Counted(last, b, m, re, csize)
    ensures Held(re, csize) && EndOf(b, m) == End(re)
    ensures b.net.last + AcceptStates(End(re)) == last + MachineStates(re)
  {}

  lemma RefusedLater(e: Error, last: int, mid: int, numRules: int, rule: Rule, scxclu: seq<bool>, csize: int)
    requires e == TooManyStates
    requires mid > MOST_STATES && mid <= last + RuleStates(rule, scxclu)
    ensures RuleRefused(e, last, numRules, rule, scxclu, csize)
  {}

  lemma ReadNow(last: int, after: int, numRules: int, rule: Rule, scxclu: seq<bool>, csize: int)
    requires !TooMany(numRules + 1) && Held(Pattern(rule), csize)
    requires after == last + MachineStates(Pattern(rule)) + BranchStates(rule, scxclu)
    ensures RuleRead(last, after, numRules, rule, scxclu, csize)
  {}

  lemma RuleParts(rule: Rule, scxclu: seq<bool>)
    ensures RuleStates(rule, scxclu) == MachineStates(Pattern(rule)) + BranchStates(rule, scxclu)
  {}

  lemma InclusiveMore(scxclu: seq<bool>, i: nat, n: nat)
    requires i <= n
    ensures Inclusive(scxclu, i) <= Inclusive(scxclu, n)
  {}

  /** More rules than accepting numbers. */
  predicate TooMany(numRules: int) {
    numRules > MAX_RULE
  }

  /** The parser has complained about some rule. */
  predicate Complained(rules: seq<Rule>) {
    exists k :: 0 <= k < |rules| && !WellFormed(Pattern(rules[k]))
  }

  /** Some rule tells the characters apart. */
  ghost predicate ToldApart(rules: seq<Rule>, c: int, d: int) {
    exists k :: 0 <= k < |rules| && Tells(Pattern(rules[k]), c, d)
  }

  /** Two characters are on one list exactly when no rule tells them apart. */
  ghost predicate AsTold(bck: seq<int>, csize: int, rules: seq<Rule>) {
    forall c, d :: 0 <= c < csize && 0 <= d < csize ==> (OneList(bck, csize, c, d) <==> !ToldApart(rules, c, d))
  }

  lemma ToldMore(b0: seq<int>, b1: seq<int>, csize: int, rules: seq<Rule>, rule: Rule)
    requires AsTold(b0, csize, rules) && Divided(b0, b1, csize, Pattern(rule))
    ensures AsTold(b1, csize, rules + [rule])
  {
    hide OneList, Tells;
    var rules' := rules + [rule];
    forall c, d | 0 <= c < csize && 0 <= d < csize
      ensures ToldApart(rules', c, d) <==> ToldApart(rules, c, d) || Tells(Pattern(rule), c, d)
    {
      if ToldApart(rules, c, d) {
        var k :| 0 <= k < |rules| && Tells(Pattern(rules[k]), c, d);
        assert rules'[k] == rules[k];
      }
      if Tells(Pattern(rule), c, d) { assert rules'[|rules|] == rule; }
    }
  }

  lemma ComplainedMore(rules: seq<Rule>, rule: Rule)
    ensures Complained(rules + [rule]) <==> Complained(rules) || !WellFormed(Pattern(rule))
  {
    if Complained(rules) {
      var k :| 0 <= k < |rules| && !WellFormed(Pattern(rules[k]));
      assert (rules + [rule])[k] == rules[k];
    }
    if !WellFormed(Pattern(rule)) { assert (rules + [rule])[|rules|] == rule; }
  }

  ghost predicate MeansAt(rule: Rule, l: Lang, cls: seq<ClassInfo>, csize: int) {
    Labelled(l, |cls|) && Read(l, cls, csize) == Denotes(Pattern(rule), csize)
  }

  lemma MeansNow(rule: Rule, l: Lang, cls: seq<ClassInfo>, csize: int)
    requires Labelled(l, |cls|) && Read(l, cls, csize) == Denotes(Pattern(rule), csize)
    ensures MeansAt(rule, l, cls, csize)
  {}

  lemma MeansMore(rules: seq<Rule>, infos: seq<Info>, cls: seq<ClassInfo>, cls': seq<ClassInfo>, csize: int, rule: Rule,
                  info: Info)
    requires Means(rules, infos, cls, csize) && cls <= cls' && MeansAt(rule, info.l, cls', csize)
    requires StillInhabited(cls, cls', Pattern(rule), csize)
    ensures Means(rules + [rule], infos + [info], cls', csize)
  {
    hide Read, Denotes, Labelled, Inhabited, NoneEmpty;
    if AllInhabited(rules + [rule], csize) {
      forall k | 0 <= k < |rules| ensures Inhabited(Pattern(rules[k]), csize) {
        assert (rules + [rule])[k] == rules[k];
      }
      assert (rules + [rule])[|rules|] == rule;
    }
    forall k | 0 <= k < |rules| ensures MeansAt(rules[k], infos[k].l, cls', csize) {
      assert MeansAt(rules[k], infos[k].l, cls, csize);
      ReadStable(infos[k].l, cls, cls', csize);
      LabelledMore(infos[k].l, |cls|, |cls'|);
    }
  }

  lemma LabelledMore(l: Lang, k: int, k': int)
    requires Labelled(l, k) && k <= k'
    ensures Labelled(l, k')
  {
    forall u | u in l ensures WordLabelled(u, k') { assert WordLabelled(u, k); }
  }

  /** The states of the start conditions lead to the rules in setOn, those for the beginning of a line to the rules in
      bolOn. */
  ghost predicate StartsOk(s: Arrays, infos: seq<Info>, scset: seq<int>, setOn: seq<set<int>>, scbol: seq<int>,
                           bolOn: seq<set<int>>) {
    && |scset| == |scbol| >= 1 && Complete(s, infos) && AllAttached(s, scset, setOn, infos)
       && AllAttached(s, scbol, bolOn, infos)
  }

  ghost predicate AsWanted(rules: seq<Rule>, scxclu: seq<bool>, setOn: seq<set<int>>, bolOn: seq<set<int>>) {
    && |setOn| == |bolOn| == |scxclu|
    && forall sc :: 1 <= sc < |scxclu| ==> setOn[sc] == Wanted(rules, scxclu, sc, false)
                                           && bolOn[sc] == Wanted(rules, scxclu, sc, true)
  }

  lemma SetSize(csize: int)
    requires csize == 128 || csize == CSIZE
    ensures csize >= 0
  {}

  /** What holds before there are any rules or start conditions. */
  lemma NoRules(s: Arrays, cls: seq<ClassInfo>, bck: seq<int>, csize: nat)
    requires Fits(s) && s.net.last == 0 && |cls| == 0
    requires forall c, d :: 0 <= c < csize && 0 <= d < csize ==> OneList(bck, csize, c, d)
    ensures Means([], [], cls, csize) && StartsOk(s, [], [0], [{}], [0], [{}]) && AsTold(bck, csize, [])
    ensures AsWanted([], [false], [{}], [{}]) && !Complained([])
  {
    hide OneList;
  }

  class RuleSet {
    const pc: PatternCompiler
    const nfa: NfaBuilder
    var numRules: int
    var lastsc: int
    var scset: seq<int>
    var scbol: seq<int>
    var scxclu: seq<bool>
    ghost var rules: seq<Rule>
    ghost var infos: seq<Info>
    ghost var setOn: seq<set<int>>
    ghost var bolOn: seq<set<int>>

    ghost const Repr: set<object> := {this, pc, nfa, nfa.nextecm, nfa.ecgroup, nfa.cclflags, nfa.ccls}

    /** The machines mean what the rules say, and every start condition leads to the rules meant for it. */
    ghost predicate Valid()
      reads Repr, nfa.ccls.ccltbl
    {
      && pc.nfa == nfa && pc.Valid()
      && numRules == |rules| == |infos| && |scset| == |scbol| == |scxclu| == lastsc + 1 && 0 <= lastsc
      && Means(rules, infos, Classes(nfa.ccls), nfa.csize)
      && StartsOk(nfa.State(), infos, scset, setOn, scbol, bolOn)
      && AsWanted(rules, scxclu, setOn, bolOn) && pc.syntaxerror == Complained(rules)
      && AsTold(nfa.ecgroup[..], nfa.csize, rules)
    }

    /** Valid taken apart, and put together again, for proofs that do not look into its parts. */
    lemma Parts()
      requires Valid()
      ensures pc.nfa == nfa && pc.Valid() && nfa.Valid() && numRules == |rules| == |infos| && 0 <= lastsc
      ensures |scset| == |scbol| == |scxclu| == lastsc + 1
      ensures Means(rules, infos, Classes(nfa.ccls), nfa.csize) && AsTold(nfa.ecgroup[..], nfa.csize, rules)
      ensures StartsOk(nfa.State(), infos, scset, setOn, scbol, bolOn)
      ensures AsWanted(rules, scxclu, setOn, bolOn) && |setOn| == |bolOn| == |scxclu|
      ensures pc.syntaxerror == Complained(rules)
    {
      hide NfaBuilder.Valid, Means, StartsOk, AsTold, IsAny, Wanted;
    }

    lemma Fit()
      requires pc.nfa == nfa && pc.Valid() && numRules == |rules| == |infos| && 0 <= lastsc
      requires |scset| == |scbol| == |scxclu| == lastsc + 1
      requires Means(rules, infos, Classes(nfa.ccls), nfa.csize) && AsTold(nfa.ecgroup[..], nfa.csize, rules)
      requires StartsOk(nfa.State(), infos, scset, setOn, scbol, bolOn)
      requires AsWanted(rules, scxclu, setOn, bolOn) && pc.syntaxerror == Complained(rules)
      ensures Valid()
    {}

    lemma ReprIs()
      requires pc.nfa == nfa
      ensures Repr == {this, pc, nfa, nfa.nextecm, nfa.ecgroup, nfa.cclflags, nfa.ccls}
      ensures pc.Repr == {pc, nfa, nfa.nextecm, nfa.ecgroup, nfa.cclflags, nfa.ccls}
    {}

    constructor (csize: int)
      requires csize == 128 || csize == CSIZE
      ensures Valid() && fresh(Repr) && fresh(nfa.ccls.ccltbl) && rules == [] && lastsc == 0 && nfa.csize == csize
      ensures scxclu == [false] && nfa.lastnfa == 0
    {
      hide *;
      var builder := new NfaBuilder(csize);
      var compiler := new PatternCompiler(builder);
      nfa, pc := builder, compiler;
      numRules, lastsc := 0, 0;
      scset, scbol, scxclu := [0], [0], [false];
      rules, infos, setOn, bolOn := [], [], [{}], [{}];
      new;
      SetSize(csize);
      nfa.ReprIs();
      AllOnOne(nfa.ecgroup[..], csize);
      pc.Known();
      nfa.Fine();
      nfa.StateIs();
      NoRules(nfa.State(), Classes(nfa.ccls), nfa.ecgroup[..], csize);
      ReprIs();
      Fit();
    }

    /** The two epsilon states of a new start condition. */
    method NewStates() returns (r: Result<(int, int)>)
      requires Valid() && rules == []
      modifies nfa, nfa.nextecm, nfa.ecgroup
      ensures r.Failure? ==> r.error == TooManyStates && old(nfa.lastnfa) + 2 > MOST_STATES
      ensures r.Success? ==> nfa.lastnfa == old(nfa.lastnfa) + 2
      ensures r.Success? ==> nfa.ecgroup[..] == old(nfa.ecgroup[..])
      ensures r.Success? ==> pc.Valid() && Classes(nfa.ccls) == old(Classes(nfa.ccls))
      ensures r.Success?
              ==> StartsOk(nfa.State(), infos, scset + [r.value.0], setOn + [{}], scbol + [r.value.1], bolOn + [{}])
    {
      hide NfaBuilder.CharsOk, StateMade, InfoBelow, Layout, StartsOk, AsWanted, Means, IsAny;
      ghost var a := nfa.State();
      var s :- nfa.MkEpsilon();
      ghost var b := nfa.State();
      var t :- nfa.MkEpsilon();
      ScAdded(a, b, nfa.State(), scset, scbol, setOn, bolOn);
      return Success((s, t));
    }

    /** The entry of the new start condition. */
    method EnterCondition(states: (int, int), xcluflg: bool)
      requires pc.nfa == nfa && pc.Valid() && numRules == 0 && rules == [] && infos == [] && 0 <= lastsc
      requires |scset| == |scbol| == |scxclu| == lastsc + 1 && pc.syntaxerror == Complained(rules)
      requires Means(rules, infos, Classes(nfa.ccls), nfa.csize) && AsTold(nfa.ecgroup[..], nfa.csize, rules)
      requires AsWanted(rules, scxclu, setOn, bolOn)
      requires StartsOk(nfa.State(), infos, scset + [states.0], setOn + [{}], scbol + [states.1], bolOn + [{}])
      modifies this`lastsc, this`scset, this`scbol, this`scxclu, this`setOn, this`bolOn
      ensures Valid() && lastsc == old(lastsc) + 1 && scxclu == old(scxclu) + [xcluflg]
    {
      hide *;
      ReprIs();
      NoneWanted(scxclu, xcluflg, setOn, bolOn);
      lastsc := lastsc + 1;
      scset, scbol, scxclu := scset + [states.0], scbol + [states.1], scxclu + [xcluflg];
      setOn, bolOn := setOn + [{}], bolOn + [{}];
      Fit();
    }

    /** scinstal: two epsilon states for a new start condition. No rules exist yet. */
    method ScInstal(xcluflg: bool) returns (r: Result<()>)
      requires Valid() && rules == []
      modifies Repr
      ensures nfa.ccls.ccltbl == old(nfa.ccls.ccltbl)
      ensures r.Failure? ==> r.error == TooManyStates && old(nfa.lastnfa) + 2 > MOST_STATES
      ensures r.Success? ==> nfa.lastnfa == old(nfa.lastnfa) + 2
      ensures r.Success? ==> Valid() && rules == [] && lastsc == old(lastsc) + 1 && scxclu == old(scxclu) + [xcluflg]
    {
      hide *;
      Parts();
      ReprIs();
      var made := NewStates();
      if made.Failure? { return Failure(made.error); }
      EnterCondition(made.value, xcluflg);
      return Success(());
    }

    /** mkbranch for one start condition: from now on it leads to the machine pat as well. */
    method AttachOne(bol: bool, sc: int, pat: int, ghost k: int) returns (r: Result<()>)
      requires nfa.Valid() && 1 <= sc < |scset|
      requires StartsOk(nfa.State(), infos, scset, setOn, scbol, bolOn) && Attached(nfa.State().net, pat, {k}, infos)
      modifies this`scset, this`scbol, this`setOn, this`bolOn, nfa, nfa.nextecm, nfa.ecgroup
      ensures r.Failure? ==> r.error == TooManyStates && old(nfa.lastnfa) + 1 > MOST_STATES
      ensures r.Success? ==> nfa.lastnfa == old(nfa.lastnfa) + 1
      ensures r.Success? ==> nfa.ecgroup[..] == old(nfa.ecgroup[..])
      ensures r.Success? ==> nfa.Valid() && StartsOk(nfa.State(), infos, scset, setOn, scbol, bolOn)
                             && Attached(nfa.State().net, pat, {k}, infos)
      ensures r.Success? ==> |scset| == |old(scset)| && |scbol| == |old(scbol)| && |setOn| == |old(setOn)|
                             && |bolOn| == |old(bolOn)|
      ensures r.Success? ==> setOn == (if bol then old(setOn) else Joined(old(setOn), sc, k))
      ensures r.Success? ==> bolOn == (if bol then Joined(old(bolOn), sc, k) else old(bolOn))
    {
      hide NfaBuilder.CharsOk, StartsOk, Attached, Branched, Words, Closed;
      ghost var a := nfa.State();
      StartFacts(a, infos, scset, setOn, scbol, bolOn, sc, pat, k);
      if bol {
        var first := scbol[sc];
        var e :- nfa.MkBranch(first, pat);
        BranchBol(a, nfa.State(), e, infos, scset, setOn, scbol, bolOn, sc, pat, k);
        scbol := scbol[sc := e];
        bolOn := Joined(bolOn, sc, k);
      } else {
        var first := scset[sc];
        var e :- nfa.MkBranch(first, pat);
        BranchSet(a, nfa.State(), e, infos, scset, setOn, scbol, bolOn, sc, pat, k);
        scset := scset[sc := e];
        setOn := Joined(setOn, sc, k);
      }
      return Success(());
    }

    /** The start conditions that the rule lists. */
    method AttachListed(rule: Rule, pat: int, ghost k: int) returns (r: Result<()>)
      requires nfa.Valid() && |scset| == |scbol| == |scxclu| == |setOn| == |bolOn| == lastsc + 1 && 0 <= lastsc
      requires StartsOk(nfa.State(), infos, scset, setOn, scbol, bolOn) && Attached(nfa.State().net, pat, {k}, infos)
      requires forall i :: 0 <= i < |rule.scons| ==> 1 <= rule.scons[i] <= lastsc
      modifies this`scset, this`scbol, this`setOn, this`bolOn, nfa, nfa.nextecm, nfa.ecgroup
      ensures r.Failure? ==> r.error == TooManyStates && old(nfa.lastnfa) + |rule.scons| > MOST_STATES
      ensures r.Success? ==> nfa.lastnfa == old(nfa.lastnfa) + |rule.scons|
      ensures r.Success? ==> nfa.ecgroup[..] == old(nfa.ecgroup[..])
      ensures r.Success? ==> nfa.Valid() && StartsOk(nfa.State(), infos, scset, setOn, scbol, bolOn)
      ensures r.Success? ==> |scset| == |scbol| == |setOn| == |bolOn| == lastsc + 1
      ensures r.Success? ==> Widening(old(setOn), setOn, Listed(rule.scons), k, !rule.bol)
                             && Widening(old(bolOn), bolOn, Listed(rule.scons), k, rule.bol)
    {
      hide NfaBuilder.Valid, StartsOk, Attached, Words, Widening, Joined;
      ghost var set0, bol0, last := setOn, bolOn, nfa.lastnfa;
      NoneDone(set0, k, !rule.bol);
      NoneDone(bol0, k, rule.bol);
      assert Listed(rule.scons[..0]) == {};
      var i := 0;
      while i < |rule.scons|
        invariant 0 <= i <= |rule.scons|
        invariant nfa.lastnfa == last + i
        invariant nfa.Valid() && nfa.ecgroup[..] == old(nfa.ecgroup[..])
        invariant StartsOk(nfa.State(), infos, scset, setOn, scbol, bolOn)
                  && Attached(nfa.State().net, pat, {k}, infos)
        invariant |scset| == |scbol| == |setOn| == |bolOn| == lastsc + 1
        invariant Widening(set0, setOn, Listed(rule.scons[..i]), k, !rule.bol)
                  && Widening(bol0, bolOn, Listed(rule.scons[..i]), k, rule.bol)
      {
        ghost var set1, bol1 := setOn, bolOn;
        var _ :- AttachOne(rule.bol, rule.scons[i], pat, k);
        ListedMore(rule.scons, i);
        WidenStep(set0, set1, setOn, Listed(rule.scons[..i]), rule.scons[i], k, !rule.bol);
        WidenStep(bol0, bol1, bolOn, Listed(rule.scons[..i]), rule.scons[i], k, rule.bol);
        i := i + 1;
      }
      assert rule.scons[..i] == rule.scons;
      return Success(());
    }

    /** All start conditions that are not exclusive. */
    method AttachInclusive(rule: Rule, pat: int, ghost k: int) returns (r: Result<()>)
      requires nfa.Valid() && |scset| == |scbol| == |scxclu| == |setOn| == |bolOn| == lastsc + 1 && 0 <= lastsc
      requires StartsOk(nfa.State(), infos, scset, setOn, scbol, bolOn) && Attached(nfa.State().net, pat, {k}, infos)
      modifies this`scset, this`scbol, this`setOn, this`bolOn, nfa, nfa.nextecm, nfa.ecgroup
      ensures r.Failure? ==> r.error == TooManyStates && old(nfa.lastnfa) + Inclusive(scxclu, lastsc) > MOST_STATES
      ensures r.Success? ==> nfa.lastnfa == old(nfa.lastnfa) + Inclusive(scxclu, lastsc)
      ensures r.Success? ==> nfa.ecgroup[..] == old(nfa.ecgroup[..])
      ensures r.Success? ==> nfa.Valid() && StartsOk(nfa.State(), infos, scset, setOn, scbol, bolOn)
      ensures r.Success? ==> |scset| == |scbol| == |setOn| == |bolOn| == lastsc + 1
      ensures r.Success? ==> Widening(old(setOn), setOn, NotExclusive(scxclu, lastsc), k, !rule.bol)
                             && Widening(old(bolOn), bolOn, NotExclusive(scxclu, lastsc), k, rule.bol)
    {
      hide NfaBuilder.Valid, StartsOk, Attached, Words, Widening, Joined;
      ghost var set0, bol0, last := setOn, bolOn, nfa.lastnfa;
      NoneDone(set0, k, !rule.bol);
      NoneDone(bol0, k, rule.bol);
      assert NotExclusive(scxclu, 0) == {};
      var i := 1;
      while i <= lastsc
        invariant 1 <= i <= lastsc + 1
        invariant nfa.lastnfa == last + Inclusive(scxclu, i - 1)
        invariant nfa.Valid() && nfa.ecgroup[..] == old(nfa.ecgroup[..])
        invariant StartsOk(nfa.State(), infos, scset, setOn, scbol, bolOn)
                  && Attached(nfa.State().net, pat, {k}, infos)
        invariant |scset| == |scbol| == |setOn| == |bolOn| == lastsc + 1
        invariant Widening(set0, setOn, NotExclusive(scxclu, i - 1), k, !rule.bol)
                  && Widening(bol0, bolOn, NotExclusive(scxclu, i - 1), k, rule.bol)
      {
        InclusiveMore(scxclu, i, lastsc);
        ExclusiveMore(scxclu, i);
        if !scxclu[i] {
          ghost var set1, bol1 := setOn, bolOn;
          var _ :- AttachOne(rule.bol, i, pat, k);
          WidenStep(set0, set1, setOn, NotExclusive(scxclu, i - 1), i, k, !rule.bol);
          WidenStep(bol0, bol1, bolOn, NotExclusive(scxclu, i - 1), i, k, rule.bol);
        }
        i := i + 1;
      }
      return Success(());
    }

    /** flexrule: the machine pat is added to the start conditions the rule is meant for. */
    method AttachRule(rule: Rule, pat: int, ghost k: int) returns (r: Result<()>)
      requires nfa.Valid() && |scset| == |scbol| == |scxclu| == |setOn| == |bolOn| == lastsc + 1 && 0 <= lastsc
      requires StartsOk(nfa.State(), infos, scset, setOn, scbol, bolOn) && Attached(nfa.State().net, pat, {k}, infos)
      requires forall i :: 0 <= i < |rule.scons| ==> 1 <= rule.scons[i] <= lastsc
      modifies this`scset, this`scbol, this`setOn, this`bolOn, nfa, nfa.nextecm, nfa.ecgroup
      ensures r.Failure? ==> r.error == TooManyStates && old(nfa.lastnfa) + BranchStates(rule, scxclu) > MOST_STATES
      ensures r.Success? ==> nfa.lastnfa == old(nfa.lastnfa) + BranchStates(rule, scxclu)
      ensures r.Success? ==> nfa.ecgroup[..] == old(nfa.ecgroup[..])
      ensures r.Success? ==> nfa.Valid() && StartsOk(nfa.State(), infos, scset, setOn, scbol, bolOn)
      ensures r.Success? ==> |scset| == |scbol| == |setOn| == |bolOn| == lastsc + 1
      ensures r.Success? ==> Widened(old(setOn), setOn, rule, scxclu, k, !rule.bol)
                             && Widened(old(bolOn), bolOn, rule, scxclu, k, rule.bol)
    {
      hide NfaBuilder.Valid, StartsOk, Attached, Words;
      if rule.scons != [] {
        r := AttachListed(rule, pat, k);
      } else {
        r := AttachInclusive(rule, pat, k);
      }
    }

    /** The pattern of a rule and its accepting number. */
    method MakeMachine(rule: Rule) returns (r: Result<int>)
      requires Valid() && Proper(Pattern(rule))
      modifies Repr, nfa.ccls.ccltbl
      ensures nfa.ccls.ccltbl == old(nfa.ccls.ccltbl) || fresh(nfa.ccls.ccltbl)
      ensures r.Failure? ==> RuleRefused(r.error, old(nfa.lastnfa), old(|rules|), rule, scxclu, nfa.csize)
      ensures r.Success? ==> nfa.lastnfa == old(nfa.lastnfa) + MachineStates(Pattern(rule))
                             && Held(Pattern(rule), nfa.csize) && !TooMany(old(|rules|) + 1)
      ensures rules == old(rules) && lastsc == old(lastsc) && scxclu == old(scxclu) && scset == old(scset)
              && scbol == old(scbol)
      ensures setOn == old(setOn) && bolOn == old(bolOn) && |setOn| == |bolOn| == |scset|
      ensures r.Success? ==> pc.Valid() && numRules == |infos| == |rules| + 1
                             && StartsOk(nfa.State(), infos, scset, setOn, scbol, bolOn)
      ensures r.Success? ==> Attached(nfa.State().net, r.value, {|rules|}, infos)
                             && Means(rules + [rule], infos, Classes(nfa.ccls), nfa.csize)
      ensures r.Success? ==> pc.syntaxerror == (old(pc.syntaxerror) || !WellFormed(Pattern(rule)))
      ensures r.Success? ==> AsTold(nfa.ecgroup[..], nfa.csize, rules + [rule])
    {
      hide *;
      Parts();
      ReprIs();
      RuleParts(rule, scxclu);
      ghost var last := nfa.lastnfa;
      ghost var a, cls, bck := nfa.State(), Classes(nfa.ccls), nfa.ecgroup[..];
      numRules := numRules + 1;
      TooManyRefused(nfa.lastnfa, |rules|, rule, scxclu, nfa.csize);
      if TooMany(numRules) { return Failure(TooManyRules); }
      var made, l := pc.Compile(Pattern(rule));
      if made.Failure? {
        PatternRefused(made.error, last, |rules|, rule, scxclu, nfa.csize);
        return Failure(made.error);
      }
      var pat := made.value;
      ghost var b := nfa.State();
      ToldMore(bck, nfa.ecgroup[..], nfa.csize, rules, rule);
      MachineRead(last, b, pat, Pattern(rule), nfa.csize);
      PatternReady(a, b, pat, Classes(nfa.ccls), l, Pattern(rule), nfa.csize);
      pc.Known();
      nfa.LastIs();
      var hung := nfa.AddAccept(pat, numRules);
      if hung.Failure? {
        RefusedLater(hung.error, last, last + MachineStates(Pattern(rule)), |rules|, rule, scxclu, nfa.csize);
        return Failure(hung.error);
      }
      pc.StillValid();
      ghost var info := Info(At(nfa.State(), pat), l);
      RuleReady(a, b, nfa.State(), pat, l, infos, scset, setOn, scbol, bolOn, rules, scxclu, Classes(nfa.ccls),
          Pattern(rule), nfa.csize);
      MeansNow(rule, l, Classes(nfa.ccls), nfa.csize);
      MeansMore(rules, infos, cls, Classes(nfa.ccls), nfa.csize, rule, info);
      infos := infos + [info];
      return Success(pat);
    }

    /** One rule: its pattern, its accepting number and its start conditions. */
    method AddRule(rule: Rule) returns (r: Result<()>)
      requires Valid() && Proper(Pattern(rule)) && forall i :: 0 <= i < |rule.scons| ==> 1 <= rule.scons[i] <= lastsc
      modifies Repr, nfa.ccls.ccltbl
      ensures nfa.ccls.ccltbl == old(nfa.ccls.ccltbl) || fresh(nfa.ccls.ccltbl)
      ensures r.Failure? ==> RuleRefused(r.error, old(nfa.lastnfa), old(|rules|), rule, old(scxclu), nfa.csize)
      ensures r.Success? ==> RuleRead(old(nfa.lastnfa), nfa.lastnfa, old(|rules|), rule, scxclu, nfa.csize)
      ensures r.Success? ==> Valid() && rules == old(rules) + [rule] && lastsc == old(lastsc) && scxclu == old(scxclu)
    {
      hide *;
      Parts();
      ReprIs();
      RuleParts(rule, scxclu);
      ghost var last := nfa.lastnfa;
      ComplainedMore(rules, rule);
      var pat := MakeMachine(rule);
      if pat.Failure? { return Failure(pat.error); }
      ghost var set0, bol0 := setOn, bolOn;
      pc.Known();
      var done := AttachRule(rule, pat.value, |rules|);
      if done.Failure? {
        RefusedLater(done.error, last, last + RuleStates(rule, scxclu), |rules|, rule, scxclu, nfa.csize);
        return Failure(done.error);
      }
      ReadNow(last, nfa.lastnfa, |rules|, rule, scxclu, nfa.csize);
      pc.StillValid();
      WantedMore(rules, rule, scxclu, set0, setOn, bol0, bolOn);
      rules := rules + [rule];
      Fit();
      return Success(());
    }

    /** The start of ntod: for every start condition one state for the middle of a line and one for its beginning. */
    method MakeStarts() returns (r: Result<seq<int>>)
      requires Valid()
      modifies nfa, nfa.nextecm, nfa.ecgroup
      ensures r.Failure? ==> r.error == TooManyStates && old(nfa.lastnfa) + lastsc > MOST_STATES
      ensures r.Success? ==> nfa.lastnfa == old(nfa.lastnfa) + lastsc
      ensures r.Success? ==> nfa.ecgroup[..] == old(nfa.ecgroup[..])
      ensures r.Success? ==> pc.Valid() && |r.value| == 2 * lastsc + 1 && Complete(nfa.State(), infos)
      ensures r.Success? ==> AllAttached(nfa.State(), r.value, StartSets(rules, scxclu, lastsc), infos)
      ensures r.Success? ==> Means(rules, infos, Classes(nfa.ccls), nfa.csize)
    {
      hide NfaBuilder.CharsOk, StartsOk, Attached, AsWanted, Means, IsAny, Layout, InfoBelow, Complete,
           AllAttached, Branched, Closed, FromSets, StartSet;
      var starts := [0];
      ghost var last := nfa.lastnfa;
      ghost var on: seq<set<int>> := [{}];
      AttachedNone(nfa.State(), infos);
      NoStart(rules, scxclu);
      var i := 1;
      while i <= 2 * lastsc
        invariant 1 <= i <= 2 * lastsc + 1 && |starts| == |on| == i && |on| <= 2 * lastsc + 1
        invariant pc.Valid() && nfa.ecgroup[..] == old(nfa.ecgroup[..])
        invariant StartsOk(nfa.State(), infos, scset, setOn, scbol, bolOn)
        invariant AllAttached(nfa.State(), starts, on, infos)
        invariant forall j :: 0 <= j < i ==> on[j] == StartSet(rules, scxclu, j)
        invariant nfa.lastnfa == last + (i - 1) / 2
        invariant FromSets(starts, scset, nfa.lastnfa)
      {
        ghost var a := nfa.State();
        if i % 2 == 1 {
          OddStart(a, infos, scset, setOn, scbol, bolOn, rules, scxclu, starts, on, i);
          starts := starts + [scset[i / 2 + 1]];
        } else {
          EvenStart(a, infos, scset, setOn, scbol, bolOn, i / 2);
          var e :- nfa.MkBranch(scbol[i / 2], scset[i / 2]);
          EvenBranched(a, nfa.State(), e, infos, scset, setOn, scbol, bolOn, rules, scxclu, starts, on, i);
          starts := starts + [e];
        }
        on := on + [StartSet(rules, scxclu, i)];
        i := i + 1;
      }
      assert on == StartSets(rules, scxclu, lastsc);
      StartsComplete(nfa.State(), infos, scset, setOn, scbol, bolOn);
      return Success(starts);
    }
  }

  // ----- reading all rules

  /** The states that the first n rules need. */
  function RulesStates(rules: seq<Rule>, n: nat, scxclu: seq<bool>): nat
    requires n <= |rules|
  {
    if n == 0 then 0 else RulesStates(rules, n - 1, scxclu) + RuleStates(rules[n - 1], scxclu)
  }

  lemma {:induction false} RulesStatesMore(rules: seq<Rule>, i: nat, n: nat, scxclu: seq<bool>)
    requires i <= n <= |rules|
    ensures RulesStates(rules, i, scxclu) <= RulesStates(rules, n, scxclu)
  {
    if i < n { RulesStatesMore(rules, i, n - 1, scxclu); }
  }

  /** Flex can read these start conditions and rules: there are accepting numbers and NFA states enough for all of
      them, and their characters are in the set. */
  ghost predicate Readable(scs: seq<bool>, rules: seq<Rule>, csize: int) {
    && |rules| <= MAX_RULE && 2 * |scs| + RulesStates(rules, |rules|, [false] + scs) <= MOST_STATES
    && forall k :: 0 <= k < |rules| ==> Held(Pattern(rules[k]), csize)
  }

  /** What the parser passes on: characters are not negative, and start conditions exist. */
  ghost predicate Parsed(scs: seq<bool>, rules: seq<Rule>) {
    forall k :: 0 <= k < |rules| ==> ParsedRule(rules[k], |scs|)
  }

  ghost predicate ParsedRule(rule: Rule, lastsc: int) {
    Proper(Pattern(rule)) && forall i :: 0 <= i < |rule.scons| ==> 1 <= rule.scons[i] <= lastsc
  }

  lemma RuleStops(e: Error, last: int, scs: seq<bool>, rules: seq<Rule>, k: nat, csize: int)
    requires k < |rules| && last == 2 * |scs| + RulesStates(rules, k, [false] + scs)
    requires RuleRefused(e, last, k, rules[k], [false] + scs, csize)
    ensures !Readable(scs, rules, csize)
  {
    RulesStatesMore(rules, k + 1, |rules|, [false] + scs);
  }

  lemma RuleGoesOn(last: int, after: int, scs: seq<bool>, rules: seq<Rule>, k: nat, csize: int)
    requires k < |rules| && last == 2 * |scs| + RulesStates(rules, k, [false] + scs)
    requires RuleRead(last, after, k, rules[k], [false] + scs, csize)
    ensures after == 2 * |scs| + RulesStates(rules, k + 1, [false] + scs) && Held(Pattern(rules[k]), csize)
            && k < MAX_RULE
  {}

  lemma AllRead(scs: seq<bool>, rules: seq<Rule>, csize: int)
    requires 2 * |scs| + RulesStates(rules, |rules|, [false] + scs) <= MOST_STATES
    requires |rules| <= MAX_RULE && forall k :: 0 <= k < |rules| ==> Held(Pattern(rules[k]), csize)
    ensures Readable(scs, rules, csize)
  {}

  /** The start conditions, INITIAL among them. */
  method ReadConditions(csize: int, scs: seq<bool>) returns (r: Result<RuleSet>)
    requires csize == 128 || csize == CSIZE
    ensures r.Failure? ==> r.error == TooManyStates && 2 * |scs| > MOST_STATES
    ensures r.Success? ==> fresh(r.value.Repr) && fresh(r.value.nfa.ccls.ccltbl) && r.value.Valid()
    ensures r.Success? ==> r.value.rules == [] && r.value.nfa.csize == csize && r.value.lastsc == |scs|
                           && r.value.scxclu == [false] + scs && r.value.nfa.lastnfa == 2 * |scs|
  {
    hide *;
    var rs := new RuleSet(csize);
    var i := 0;
    while i < |scs|
      invariant 0 <= i <= |scs| && fresh(rs.Repr) && fresh(rs.nfa.ccls.ccltbl) && rs.Valid() && rs.rules == []
      invariant rs.nfa.csize == csize && rs.lastsc == i && rs.scxclu == [false] + scs[..i] && rs.nfa.lastnfa == 2 * i
    {
      var done := rs.ScInstal(scs[i]);
      if done.Failure? { return Failure(done.error); }
      assert scs[..i + 1] == scs[..i] + [scs[i]];
      i := i + 1;
    }
    assert scs[..i] == scs;
    return Success(rs);
  }

  /** The first two sections of the input: start conditions, and rules. */
  method ReadRules(csize: int, scs: seq<bool>, rules: seq<Rule>) returns (r: Result<RuleSet>)
    requires csize == 128 || csize == CSIZE
    requires Parsed(scs, rules)
    ensures r.Success? <==> Readable(scs, rules, csize)
    ensures r.Success? ==> fresh(r.value.Repr) && fresh(r.value.nfa.ccls.ccltbl) && r.value.Valid()
    ensures r.Success? ==> r.value.rules == rules && r.value.nfa.csize == csize && r.value.lastsc == |scs|
                           && r.value.scxclu == [false] + scs
                           && r.value.nfa.lastnfa == 2 * |scs| + RulesStates(rules, |rules|, [false] + scs)
  {
    hide RuleSet.Valid, RuleStates, Held, Proper, Pattern, RulesStates, RuleRefused, RuleRead, Readable;
    var begun := ReadConditions(csize, scs);
    if begun.Failure? {
      NotReadable(scs, rules, csize);
      return Failure(begun.error);
    }
    var rs := begun.value;
    RulesStatesNone(rules, [false] + scs);
    var k := 0;
    while k < |rules|
      invariant 0 <= k <= |rules| && k <= MAX_RULE && fresh(rs.Repr) && fresh(rs.nfa.ccls.ccltbl)
      invariant rs.Valid() && rs.nfa.csize == csize && rs.lastsc == |scs| && rs.scxclu == [false] + scs
      invariant rs.rules == rules[..k] && rs.nfa.lastnfa == 2 * |scs| + RulesStates(rules, k, [false] + scs)
      invariant forall j :: 0 <= j < k ==> Held(Pattern(rules[j]), csize)
    {
      assert ParsedRule(rules[k], |scs|);
      ghost var last := rs.nfa.lastnfa;
      var done := rs.AddRule(rules[k]);
      if done.Failure? {
        RuleStops(done.error, last, scs, rules, k, csize);
        return Failure(done.error);
      }
      RuleGoesOn(last, rs.nfa.lastnfa, scs, rules, k, csize);
      assert rules[..k + 1] == rules[..k] + [rules[k]];
      k := k + 1;
    }
    assert rules[..k] == rules;
    StatesWithin(rs);
    AllRead(scs, rules, csize);
    return Success(rs);
  }

  lemma RulesStatesNone(rules: seq<Rule>, scxclu: seq<bool>)
    ensures RulesStates(rules, 0, scxclu) == 0
  {}

  lemma NotReadable(scs: seq<bool>, rules: seq<Rule>, csize: int)
    requires 2 * |scs| > MOST_STATES
    ensures !Readable(scs, rules, csize)
  {}

  lemma StatesWithin(rs: RuleSet)
    requires rs.Valid()
    ensures rs.nfa.lastnfa <= MOST_STATES
  {
    rs.Parts();
    rs.nfa.Within();
  }

  /** The rules active in DFA start state i. */
  ghost function StartSet(rules: seq<Rule>, scxclu: seq<bool>, i: int): set<int> {
    if i % 2 == 1 && 1 <= i && i / 2 + 1 < |scxclu| then Wanted(rules, scxclu, i / 2 + 1, false)
    else if 2 <= i && i / 2 < |scxclu| then Wanted(rules, scxclu, i / 2, true) + Wanted(rules, scxclu, i / 2, false)
    else {}
  }

  ghost function StartSets(rules: seq<Rule>, scxclu: seq<bool>, lastsc: nat): (on: seq<set<int>>)
    ensures |on| == 2 * lastsc + 1
  {
    seq(2 * lastsc + 1, i => StartSet(rules, scxclu, i))
  }

  /** At odd positions stand the states of the start conditions; no state is larger than last. */
  ghost predicate FromSets(starts: seq<int>, scset: seq<int>, last: int) {
    && |scset| >= 1 && (forall j :: 1 <= j < |starts| ==> starts[j] <= last)
    && (forall j :: 1 <= j < |starts| && j % 2 == 0 ==> starts[j] !in scset[1..])
    && (forall j :: 1 <= j < |starts| && j % 2 == 1 && j / 2 + 1 < |scset| ==> starts[j] == scset[j / 2 + 1])
  }

  lemma NoStart(rules: seq<Rule>, scxclu: seq<bool>)
    ensures StartSet(rules, scxclu, 0) == {}
  {}

  lemma AttachedNone(s: Arrays, infos: seq<Info>)
    ensures AllAttached(s, [0], [{}], infos) && forall scset, last :: |scset| >= 1 ==> FromSets([0], scset, last)
  {}

  lemma OddStart(a: Arrays, infos: seq<Info>, scset: seq<int>, setOn: seq<set<int>>, scbol: seq<int>,
                 bolOn: seq<set<int>>, rules: seq<Rule>, scxclu: seq<bool>, starts: seq<int>, on: seq<set<int>>, i: int)
    requires StartsOk(a, infos, scset, setOn, scbol, bolOn) && AsWanted(rules, scxclu, setOn, bolOn)
    requires AllAttached(a, starts, on, infos) && FromSets(starts, scset, a.net.last)
    requires 1 <= i == |starts| && i % 2 == 1 && i / 2 + 1 < |scset|
    ensures AllAttached(a, starts + [scset[i / 2 + 1]], on + [StartSet(rules, scxclu, i)], infos)
    ensures FromSets(starts + [scset[i / 2 + 1]], scset, a.net.last)
  {
    hide Attached, Wanted, Complete;
    var st := scset[i / 2 + 1];
    assert scset[1..][i / 2] == st;
    forall j | 1 <= j < i ensures starts[j] != st {
      if j % 2 == 1 { assert starts[j] == scset[j / 2 + 1]; }
    }
  }

  lemma EvenStart(a: Arrays, infos: seq<Info>, scset: seq<int>, setOn: seq<set<int>>, scbol: seq<int>,
                  bolOn: seq<set<int>>, sc: int)
    requires StartsOk(a, infos, scset, setOn, scbol, bolOn) && 1 <= sc < |scset|
    ensures 1 <= scbol[sc] <= a.net.last && 1 <= scset[sc] <= a.net.last && Closed(a.net, 1, a.net.last)
  {}

  lemma EvenBranched(a: Arrays, d: Arrays, e: int, infos: seq<Info>, scset: seq<int>, setOn: seq<set<int>>,
                     scbol: seq<int>, bolOn: seq<set<int>>, rules: seq<Rule>, scxclu: seq<bool>, starts: seq<int>,
                     on: seq<set<int>>, i: int)
    requires StartsOk(a, infos, scset, setOn, scbol, bolOn) && AsWanted(rules, scxclu, setOn, bolOn)
    requires AllAttached(a, starts, on, infos) && FromSets(starts, scset, a.net.last)
    requires 2 <= i == |starts| && i % 2 == 0 && i / 2 < |scset| && Branched(a, d, e, scbol[i / 2], scset[i / 2])
    ensures StartsOk(d, infos, scset, setOn, scbol, bolOn) && d.net.last == e == a.net.last + 1
    ensures AllAttached(d, starts + [e], on + [StartSet(rules, scxclu, i)], infos) && FromSets(starts + [e], scset, e)
  {
    var sc := i / 2;
    BranchWhole(a, d, e, scbol[sc], scset[sc], infos);
    CompleteInfos(a, infos);
    hide Attached, Wanted, Complete, InfosOk;
    BranchAllKept(a, d, e, scbol[sc], scset[sc], infos, scset, setOn);
    BranchAllKept(a, d, e, scbol[sc], scset[sc], infos, scbol, bolOn);
    BranchAllKept(a, d, e, scbol[sc], scset[sc], infos, starts, on);
    BranchAttached(a, d, e, scbol[sc], scset[sc], infos, bolOn[sc], setOn[sc]);
    forall j | 1 <= j < |scset| ensures scset[j] < e { PlainState(a, scset[j]); }
    assert e !in scset[1..];
  }

  lemma StartsComplete(a: Arrays, infos: seq<Info>, scset: seq<int>, setOn: seq<set<int>>, scbol: seq<int>,
                       bolOn: seq<set<int>>)
    requires StartsOk(a, infos, scset, setOn, scbol, bolOn)
    ensures Complete(a, infos)
  {}

  ghost function Joined(on: seq<set<int>>, sc: int, k: int): seq<set<int>>
    requires 0 <= sc < |on|
  {
    on[sc := on[sc] + {k}]
  }

  function Listed(scons: seq<int>): set<int> {
    set j | 0 <= j < |scons| :: scons[j]
  }

  lemma ListedMore(scons: seq<int>, i: nat)
    requires i < |scons|
    ensures Listed(scons[..i + 1]) == Listed(scons[..i]) + {scons[i]}
  {
    var more, some := scons[..i + 1], scons[..i];
    assert more == some + [scons[i]];
    forall c | c in Listed(some) ensures c in Listed(more) {
      var j :| 0 <= j < |some| && some[j] == c;
      assert more[j] == c;
    }
    assert more[i] == scons[i];
  }

  function NotExclusive(scxclu: seq<bool>, n: int): set<int> {
    set j | 1 <= j <= n && j < |scxclu| && !scxclu[j]
  }

  lemma ExclusiveMore(scxclu: seq<bool>, i: nat)
    requires 1 <= i < |scxclu|
    ensures NotExclusive(scxclu, i)
            == if scxclu[i] then NotExclusive(scxclu, i - 1) else NotExclusive(scxclu, i - 1) + {i}
  {}

  lemma NoneDone(on: seq<set<int>>, k: int, here: bool)
    ensures Widening(on, on, {}, k, here)
  {}

  lemma WidenStep(before: seq<set<int>>, on: seq<set<int>>, on': seq<set<int>>, done: set<int>, sc: int, k: int,
                  here: bool)
    requires Widening(before, on, done, k, here) && 0 <= sc < |on| && on' == if here then Joined(on, sc, k) else on
    ensures Widening(before, on', done + {sc}, k, here)
  {}

  /** on is before with k added for the start conditions in done. */
  ghost predicate Widening(before: seq<set<int>>, on: seq<set<int>>, done: set<int>, k: int, here: bool) {
    |on| == |before| && forall sc :: 0 <= sc < |on| ==> on[sc] == if here && sc in done then before[sc] + {k}
                          else before[sc]
  }

  /** k has been added for the start conditions that the rule is meant for. */
  ghost predicate Widened(before: seq<set<int>>, on: seq<set<int>>, rule: Rule, scxclu: seq<bool>, k: int, here: bool) {
    && |on| == |before| == |scxclu|
    && forall sc :: 1 <= sc < |on| ==> on[sc] == if here && ActiveIn(rule, sc, scxclu) then before[sc] + {k}
         else before[sc]
  }

  lemma WantedMore(rules: seq<Rule>, rule: Rule, scxclu: seq<bool>, set0: seq<set<int>>, setOn: seq<set<int>>,
                   bol0: seq<set<int>>, bolOn: seq<set<int>>)
    requires AsWanted(rules, scxclu, set0, bol0)
    requires Widened(set0, setOn, rule, scxclu, |rules|, !rule.bol)
             && Widened(bol0, bolOn, rule, scxclu, |rules|, rule.bol)
    ensures AsWanted(rules + [rule], scxclu, setOn, bolOn)
  {
    var rules' := rules + [rule];
    forall sc | 1 <= sc < |scxclu|
      ensures setOn[sc] == Wanted(rules', scxclu, sc, false) && bolOn[sc] == Wanted(rules', scxclu, sc, true)
    {
      forall b: bool ensures Wanted(rules', scxclu, sc, b) == Wanted(rules, scxclu, sc, b) + (if rule.bol == b
          && ActiveIn(rule, sc, scxclu) then {|rules|} else {}) {
        WantedOne(rules, rule, scxclu, sc, b);
      }
    }
  }

  lemma WantedOne(rules: seq<Rule>, rule: Rule, scxclu: seq<bool>, sc: int, bol: bool)
    requires 0 <= sc < |scxclu|
    ensures Wanted(rules + [rule], scxclu, sc, bol)
         == Wanted(rules, scxclu, sc, bol) + (if rule.bol == bol && ActiveIn(rule, sc, scxclu) then {|rules|} else {})
  {}

  lemma StartFacts(a: Arrays, infos: seq<Info>, scset: seq<int>, setOn: seq<set<int>>, scbol: seq<int>,
                   bolOn: seq<set<int>>, sc: int, pat: int, k: int)
    requires StartsOk(a, infos, scset, setOn, scbol, bolOn) && 1 <= sc < |scset| && Attached(a.net, pat, {k}, infos)
    ensures |setOn| == |scset| == |scbol| == |bolOn| && Closed(a.net, 1, a.net.last)
    ensures 1 <= scset[sc] <= a.net.last && 1 <= scbol[sc] <= a.net.last && 1 <= pat <= a.net.last
  {}

  lemma BranchSet(a: Arrays, d: Arrays, e: int, infos: seq<Info>, scset: seq<int>, setOn: seq<set<int>>,
                  scbol: seq<int>, bolOn: seq<set<int>>, sc: int, pat: int, k: int)
    requires StartsOk(a, infos, scset, setOn, scbol, bolOn) && Attached(a.net, pat, {k}, infos)
    requires 1 <= sc < |scset| && Branched(a, d, e, scset[sc], pat)
    ensures sc < |setOn| && StartsOk(d, infos, scset[sc := e], Joined(setOn, sc, k), scbol, bolOn)
            && Attached(d.net, pat, {k}, infos)
  {
    hide Attached, Branched, Complete, Plain, Words;
    CompleteInfos(a, infos);
    PlainState(a, scset[sc]);
    AttachedState(a.net, pat, {k}, infos);
    BranchWhole(a, d, e, scset[sc], pat, infos);
    BranchInto(a, d, e, scset[sc], pat, infos, scset, setOn, sc, {k});
    BranchAllKept(a, d, e, scset[sc], pat, infos, scbol, bolOn);
    BranchKeeps(a, d, e, scset[sc], pat, infos, pat, {k});
  }

  lemma BranchBol(a: Arrays, d: Arrays, e: int, infos: seq<Info>, scset: seq<int>, setOn: seq<set<int>>,
                  scbol: seq<int>, bolOn: seq<set<int>>, sc: int, pat: int, k: int)
    requires StartsOk(a, infos, scset, setOn, scbol, bolOn) && Attached(a.net, pat, {k}, infos)
    requires 1 <= sc < |scset| && Branched(a, d, e, scbol[sc], pat)
    ensures sc < |bolOn| && StartsOk(d, infos, scset, setOn, scbol[sc := e], Joined(bolOn, sc, k))
            && Attached(d.net, pat, {k}, infos)
  {
    BranchSet(a, d, e, infos, scbol, bolOn, scset, setOn, sc, pat, k);
  }

  lemma CompleteInfos(a: Arrays, infos: seq<Info>)
    requires Complete(a, infos)
    ensures InfosOk(a, infos)
  {}

  lemma PlainState(a: Arrays, st: int)
    requires Plain(a, st)
    ensures 1 <= st <= a.net.last
  {}

  lemma AttachedState(n: Net, st: int, on: set<int>, infos: seq<Info>)
    requires Attached(n, st, on, infos)
    ensures 1 <= st <= n.last
  {}

  lemma PatternReady(a: Arrays, b: Arrays, m: int, cls: seq<ClassInfo>, l: Lang, re: Re, csize: int)
    requires Compiled(a, b, m, cls, l, re, csize)
    ensures IsAt(b, m) && At(b, m).hi == b.net.last && Fits(b) && 1 <= m <= b.net.last && b.lastst[m] == b.net.last
    ensures b.firstst[m] == a.net.last + 1 && Accepts(b.net, At(b, m)) == l
  {
    MadeMachine(a, b, m, a.net.last + 1, l);
  }

  lemma RuleReady(a: Arrays, b: Arrays, c: Arrays, m: int, l: Lang, infos: seq<Info>, scset: seq<int>,
                  setOn: seq<set<int>>, scbol: seq<int>, bolOn: seq<set<int>>, rules: seq<Rule>, scxclu: seq<bool>,
                  cls: seq<ClassInfo>, re: Re, csize: int)
    requires StartsOk(a, infos, scset, setOn, scbol, bolOn) && Compiled(a, b, m, cls, l, re, csize)
    requires RuleMade(b, c, m, a.net.last + 1, |infos| + 1, l) && AsWanted(rules, scxclu, setOn, bolOn)
             && |rules| == |infos|
    ensures StartsOk(c, infos + [Info(At(c, m), l)], scset, setOn, scbol, bolOn)
    ensures Attached(c.net, m, {|infos|}, infos + [Info(At(c, m), l)])
    ensures Labelled(l, |cls|) && Read(l, cls, csize) == Denotes(re, csize)
  {
    MadeMachine(a, b, m, a.net.last + 1, l);
    assert RuleMade(a, c, m, a.net.last + 1, |infos| + 1, l) by {
      SameBelowTrans(a, b, c, a.net.last + 1, a.net.last + 1);
    }
    hide Compiled, RuleMade, Complete, Attached, Plain;
    RuleAdded(a, c, m, l, infos);
    OnBelow(rules, scxclu, setOn, bolOn);
    AllKept(a, c, scset, setOn, infos, m, l);
    AllKept(a, c, scbol, bolOn, infos, m, l);
  }

  lemma OnBelow(rules: seq<Rule>, scxclu: seq<bool>, setOn: seq<set<int>>, bolOn: seq<set<int>>)
    requires AsWanted(rules, scxclu, setOn, bolOn)
    ensures |setOn| == |bolOn| == |scxclu|
    ensures forall i, k :: 1 <= i < |setOn| && k in setOn[i] ==> k < |rules|
    ensures forall i, k :: 1 <= i < |bolOn| && k in bolOn[i] ==> k < |rules|
  {
    forall i, k | 1 <= i < |setOn| && k in setOn[i] ensures k < |rules| { assert k in Wanted(rules, scxclu, i, false); }
    forall i, k | 1 <= i < |bolOn| && k in bolOn[i] ensures k < |rules| { assert k in Wanted(rules, scxclu, i, true); }
  }

  lemma NoneWanted(scxclu: seq<bool>, x: bool, setOn: seq<set<int>>, bolOn: seq<set<int>>)
    requires AsWanted([], scxclu, setOn, bolOn)
    ensures AsWanted([], scxclu + [x], setOn + [{}], bolOn + [{}])
  {}

  /** Two fresh states for a start condition before there are any rules. */
  lemma ScAdded(a: Arrays, b: Arrays, c: Arrays, scset: seq<int>, scbol: seq<int>, setOn: seq<set<int>>,
                bolOn: seq<set<int>>)
    requires StartsOk(a, [], scset, setOn, scbol, bolOn) && StateMade(a, b, SYM_EPSILON) && StateMade(b, c, SYM_EPSILON)
    ensures StartsOk(c, [], scset + [b.net.last], setOn + [{}], scbol + [c.net.last], bolOn + [{}])
  {
    EpsAdded(a, b, scset, setOn);
    EpsAdded(a, b, scbol, bolOn);
    EpsAdded(b, c, scset + [b.net.last], setOn + [{}]);
    EpsAdded(b, c, scbol, bolOn);
  }

  lemma EpsAdded(a: Arrays, b: Arrays, states: seq<int>, on: seq<set<int>>)
    requires Complete(a, []) && StateMade(a, b, SYM_EPSILON) && AllAttached(a, states, on, []) && |states| >= 1
    ensures Complete(b, []) && AllAttached(b, states + [b.net.last], on + [{}], []) && AllAttached(b, states, on, [])
  {
    EpsComplete(a, b);
    EpsClosed(a);
    EpsPlain(a, b, states);
    hide Complete, StateMade;
    assert forall i :: 1 <= i < |states| ==> states[i] < b.net.last;
  }

  lemma EpsClosed(a: Arrays)
    requires Complete(a, [])
    ensures Closed(a.net, 1, a.net.last)
  {}

  lemma EpsPlain(a: Arrays, b: Arrays, states: seq<int>)
    requires StateMade(a, b, SYM_EPSILON) && Closed(a.net, 1, a.net.last)
    requires forall i :: 1 <= i < |states| ==> Plain(a, states[i])
    ensures Plain(b, b.net.last) && b.net.last == a.net.last + 1
            && forall i :: 1 <= i < |states| ==> Plain(b, states[i])
  {
    hide Unled;
    SameAgree(a, b, b.net.last);
    UnledNew(a.net, b.net);
    forall i | 1 <= i < |states| ensures Plain(b, states[i]) { PlainLater(a, b, states[i]); }
  }

  lemma EpsComplete(a: Arrays, b: Arrays)
    requires Complete(a, []) && StateMade(a, b, SYM_EPSILON)
    ensures Complete(b, [])
  {
    SameAgree(a, b, b.net.last);
    assert Unled(a.net, 1, a.net.last, 0);
    if a.net.last >= 1 { RegionKept(a.net, b.net, 1, a.net.last, 0, 0, 0); }
    assert Lone(b.net, 1, b.net.last) by {
      forall x, y | 1 <= x <= b.net.last && 1 <= y <= b.net.last && Solid(b.net, x) && Solid(b.net, y)
          && b.net.t1[x] == b.net.t1[y]
                    && Solid(b.net, b.net.t1[x])
        ensures x == y
      {}
    }
    forall st | 1 <= st <= b.net.last && b.accptnum[st] != 0 ensures IsFinal([], st) {
      if st < b.net.last { assert SameAt(a, b, st); }
    }
    BranchLeads(a.net, b.net, b.net.last, []);
  }
}
