/** When the templates run out: the 32766th is made for a row only if so many states of the DFA have transitions on at
    least 15 percent of the classes. In terms of the rules: there are that many texts behind each of which that many
    different characters can follow. */
module Templates {
  import opened Flexdef
  import opened Nets
  import opened Regex
  import opened Rules
  import opened Abstraction
  import opened Subsets
  import opened Compression
  import opened Dfa
  import opened Scanner
  import opened Prefixes

  /** Some rule for start state i matches w, or a string that begins with w. */
  ghost predicate MayGoOn(rules: seq<Rule>, on: seq<set<int>>, csize: int, i: int, w: seq<int>) {
    exists k, v :: RuleAt(rules, on, csize, i, k, w + v)
  }

  ghost predicate RuleAt(rules: seq<Rule>, on: seq<set<int>>, csize: int, i: int, k: int, w: seq<int>) {
    0 <= i < |on| && 0 <= k < |rules| && k in on[i] && w in Denotes(Pattern(rules[k]), csize)
  }

  /** The characters in t can follow behind the text w. */
  ghost predicate Follows(rules: seq<Rule>, on: seq<set<int>>, csize: int, i: int, w: seq<int>, t: set<int>) {
    forall c :: c in t ==> 0 <= c < csize && MayGoOn(rules, on, csize, i, w + [c])
  }

  /** Behind the text characters of at least 15 percent of the classes can follow. */
  ghost predicate Crowded(rules: seq<Rule>, on: seq<set<int>>, csize: int, numecs: nat, i: int, w: seq<int>) {
    1 <= i < |on| && exists t :: Follows(rules, on, csize, i, w, t) && Worth(|t|, numecs)
  }

  /** There are so many such texts that templates can run out. */
  ghost predicate TooCrowded(rules: seq<Rule>, on: seq<set<int>>, csize: int, numecs: nat) {
    exists spots: set<(int, seq<int>)> :: |spots| + 1 >= -JAMSTATE && AllCrowded(rules, on, csize, numecs, spots)
  }

  ghost predicate AllCrowded(rules: seq<Rule>, on: seq<set<int>>, csize: int, numecs: nat,
                             spots: set<(int, seq<int>)>) {
    forall p :: p in spots ==> Crowded(rules, on, csize, numecs, p.0, p.1)
  }

  // ----- states with many transitions

  /** Where the DFA has got to, it models the NFA, even if not all rows are made. */
  lemma {:induction false} RunModels(b: Build, i: int, e: seq<int>)
    requires NfaSide(b) && RowsSide(b) && 1 <= i < |b.starts| && InClasses(e, b.numecs)
    requires 1 <= Run(b.rows, i, e)
    ensures Run(b.rows, i, e) < |b.dss|
    ensures Models(b.s.net, b.s.accptnum, b.num, b.ecls, b.starts[i], e, b.dss[Run(b.rows, i, e)])
  {
    hide NfaSide, RowsSide, Models;
    PartStarts(b, i);
    if e != [] {
      var k := |e| - 1;
      assert e == e[..k] + [e[k]];
      RunModels(b, i, e[..k]);
      PartStep(b, i, e[..k], e[k], Run(b.rows, i, e[..k]));
    }
  }

  lemma PartStarts(b: Build, i: int)
    requires RowsSide(b) && 1 <= i < |b.starts|
    ensures i < |b.dss| && Models(b.s.net, b.s.accptnum, b.num, b.ecls, b.starts[i], [], b.dss[i])
  {
    hide RowsOk;
    ModelsStart(b.s.net, b.s.accptnum, b.num, b.ecls, b.starts[i], b.dss[i]);
  }

  lemma PartStep(b: Build, i: int, w: seq<int>, c: int, d: int)
    requires NfaSide(b) && RowsSide(b) && 1 <= i < |b.starts| && 1 <= c <= b.numecs && 1 <= d <= |b.rows|
    requires c < |b.rows[d - 1]| && b.rows[d - 1][c] >= 1 && d < |b.dss|
    requires Models(b.s.net, b.s.accptnum, b.num, b.ecls, b.starts[i], w, b.dss[d])
    ensures b.rows[d - 1][c] < |b.dss|
    ensures Models(b.s.net, b.s.accptnum, b.num, b.ecls, b.starts[i], w + [c], b.dss[b.rows[d - 1][c]])
  {
    hide Abstracts, Means, AllAttached, Models;
    var n, acc := b.s.net, b.s.accptnum;
    assert RowOk(n, acc, b.num, b.ecls, b.dss, b.dss[d], b.rows[d - 1], b.numecs);
    assert RowAt(n, acc, b.num, b.ecls, b.dss, b.dss[d], c, b.rows[d - 1][c]);
    ModelsStep(n, acc, b.num, b.ecls, b.starts[i], w, b.dss[d], c, b.dss[b.rows[d - 1][c]]);
  }

  /** A transition of a state that a text leads to: some character of the class can follow. */
  lemma StateFollows(b: Build, d: int, i: int, w: seq<int>, e: int) returns (c: int)
    requires NfaSide(b) && RowsSide(b) && NoneEmpty(b.cls, b.csize) && ReachedBy(b, d, i, w) && 1 <= d <= |b.rows|
    requires 1 <= e <= b.numecs && e < |b.rows[d - 1]| && b.rows[d - 1][e] != 0
    ensures 0 <= c < b.csize <= |b.num| && Ec(b.num, c) == e && MayGoOn(b.rules, b.on, b.csize, i, w + [c])
  {
    hide NfaSide, RowsSide, NoneEmpty, Continues, Stuck, Models;
    c := ClassChar(b, e);
    ClassesOf(b, w);
    RunModels(b, i, EcWord(b.num, w));
    NotStuck(b, i, EcWord(b.num, w), d, e);
    assert EcWord(b.num, w + [c]) == EcWord(b.num, w) + [e];
    GoesOn(b, i, w + [c]);
    ContinuesMay(b, i, w + [c]);
  }

  lemma NotStuck(b: Build, i: int, w: seq<int>, d: int, e: int)
    requires NfaSide(b) && RowsSide(b) && 1 <= i < |b.starts| && 1 <= d <= |b.rows| && d < |b.dss|
    requires 1 <= e <= b.numecs && e < |b.rows[d - 1]| && b.rows[d - 1][e] != 0
    requires Models(b.s.net, b.s.accptnum, b.num, b.ecls, b.starts[i], w, b.dss[d])
    ensures !Stuck(b, i, w + [e])
  {
    hide Abstracts, Means, AllAttached, Models;
    var n, acc := b.s.net, b.s.accptnum;
    assert RowOk(n, acc, b.num, b.ecls, b.dss, b.dss[d], b.rows[d - 1], b.numecs);
    assert RowAt(n, acc, b.num, b.ecls, b.dss, b.dss[d], e, b.rows[d - 1][e]);
    ModelsJam(n, acc, b.num, b.ecls, b.starts[i], w, b.dss[d], e);
  }

  lemma ContinuesMay(b: Build, i: int, w: seq<int>)
    requires Continues(b, i, w)
    ensures MayGoOn(b.rules, b.on, b.csize, i, w)
  {
    hide Denotes, Pattern;
    var k, v :| RuleMatches(b, i, k, w + v);
    assert RuleAt(b.rules, b.on, b.csize, i, k, w + v);
  }

  /** One character for each of the classes up to n on which the state has a transition. */
  lemma {:induction false} CharsOf(b: Build, d: int, i: int, w: seq<int>, n: nat) returns (t: set<int>)
    requires NfaSide(b) && RowsSide(b) && NoneEmpty(b.cls, b.csize) && ReachedBy(b, d, i, w) && 1 <= d <= |b.rows|
    requires n <= b.numecs && n < |b.rows[d - 1]|
    ensures |t| == |Nonzero(b.rows[d - 1], n)| && Follows(b.rules, b.on, b.csize, i, w, t)
    ensures b.csize <= |b.num| && forall c :: c in t ==> 0 <= c < b.csize && 1 <= Ec(b.num, c) <= n
  {
    hide NfaSide, RowsSide, NoneEmpty, ReachedBy, MayGoOn, Nonzero;
    SizesOf(b);
    var row := b.rows[d - 1];
    if n == 0 {
      NoneNonzero(row);
      t := {};
    } else {
      t := CharsOf(b, d, i, w, n - 1);
      NonzeroNext(row, n);
      if row[n] != 0 {
        var c := StateFollows(b, d, i, w, n);
        assert c !in t;
        t := t + {c};
      }
    }
  }

  lemma NoneNonzero(row: seq<int>)
    requires row != []
    ensures |Nonzero(row, 0)| == 0
  {
    assert Nonzero(row, 0) == {};
  }

  lemma NonzeroNext(row: seq<int>, n: nat)
    requires 1 <= n < |row|
    ensures |Nonzero(row, n)| == |Nonzero(row, n - 1)| + if row[n] != 0 then 1 else 0
  {
    assert Nonzero(row, n) == Nonzero(row, n - 1) + if row[n] != 0 then {n} else {};
  }

  lemma EobNotWide(b: Build)
    requires RowsSide(b) && 1 <= b.eob <= |b.rows| && 1 <= b.numecs
    ensures !WideRow(b.rows[b.eob - 1], b.numecs)
  {
    hide RowsSide;
    var row := b.rows[b.eob - 1];
    if b.numecs < |row| {
      forall e | 1 <= e <= b.numecs ensures row[e] == 0 { EobRowZero(b, e); }
      assert Nonzero(row, b.numecs) == {};
    }
  }

  /** The text that leads to a state with many transitions. */
  lemma WideSpot(b: Build, d: int) returns (i: int, w: seq<int>)
    requires NfaSide(b) && RowsSide(b) && AllLedTo(b.rows, |b.starts|, b.eob, |b.dss|, b.numecs) && 1 <= b.numecs
    requires NoneEmpty(b.cls, b.csize) && 1 <= d <= |b.rows| && WideRow(b.rows[d - 1], b.numecs) && |b.on| == |b.starts|
    ensures ReachedBy(b, d, i, w) && Crowded(b.rules, b.on, b.csize, b.numecs, i, w)
  {
    hide NfaSide, RowsSide, NoneEmpty, AllLedTo, Follows;
    SizesOf(b);
    if d == b.eob { EobNotWide(b); }
    i, w := ReachState(b, d);
    var t := CharsOf(b, d, i, w, b.numecs);
  }

  /** As many texts as there are such states among the first n. */
  lemma {:induction false} CollectSpots(b: Build, n: nat) returns (spots: set<(int, seq<int>)>)
    requires NfaSide(b) && RowsSide(b) && AllLedTo(b.rows, |b.starts|, b.eob, |b.dss|, b.numecs) && 1 <= b.numecs
    requires NoneEmpty(b.cls, b.csize) && n <= |b.rows| && |b.on| == |b.starts|
    ensures |spots| == WideRows(b.rows[..n], b.numecs) && AllCrowded(b.rules, b.on, b.csize, b.numecs, spots)
    ensures forall p :: p in spots ==> LedBelow(b, n, p)
  {
    hide NfaSide, RowsSide, NoneEmpty, AllLedTo, Crowded, ReachedBy, WideRow;
    if n == 0 {
      spots := {};
    } else {
      spots := CollectSpots(b, n - 1);
      assert b.rows[..n] == b.rows[..n - 1] + [b.rows[n - 1]];
      WideMore(b.rows[..n - 1], b.rows[n - 1], b.numecs);
      if WideRow(b.rows[n - 1], b.numecs) {
        var i, w := WideSpot(b, n);
        assert (i, w) !in spots by {
          if (i, w) in spots {
            assert LedBelow(b, n - 1, (i, w));
            OneState(b, n - 1, n, i, w);
          }
        }
        spots := spots + {(i, w)};
      }
    }
  }

  /** The text leads to one of the first n states. */
  ghost predicate LedBelow(b: Build, n: nat, p: (int, seq<int>)) {
    exists d :: 1 <= d <= n && ReachedBy(b, d, p.0, p.1)
  }

  lemma OneState(b: Build, n: nat, d: int, i: int, w: seq<int>)
    requires LedBelow(b, n, (i, w)) && ReachedBy(b, d, i, w)
    ensures 1 <= d <= n
  {}

  lemma Crowds(b: Build)
    requires NfaSide(b) && RowsSide(b) && AllLedTo(b.rows, |b.starts|, b.eob, |b.dss|, b.numecs) && 1 <= b.numecs
    requires AllInhabited(b.rules, b.csize) && |b.on| == |b.starts| && -JAMSTATE <= WideRows(b.rows, b.numecs) + 1
    ensures TooCrowded(b.rules, b.on, b.csize, b.numecs)
  {
    hide NfaSide, RowsSide, AllInhabited, NoneEmpty, AllLedTo, AllCrowded;
    Inhabitants(b);
    assert b.rows[..|b.rows|] == b.rows;
    var spots := CollectSpots(b, |b.rows|);
  }
}
