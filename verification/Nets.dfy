/** Nondeterministic machines in flex's form: every state has one symbol and at most two successors. */
module Nets {
  import opened Flexdef
  import opened Languages

  /** The transition arrays; states are 1..last, 0 is no transition. */
  datatype Net = Net(last: int, tc: seq<int>, t1: seq<int>, t2: seq<int>)

  ghost predicate Sized(n: Net) {
    0 <= n.last < |n.tc| && n.last < |n.t1| && n.last < |n.t2|
  }

  ghost predicate Edge(n: Net, a: int, b: int) {
    1 <= a <= n.last && Sized(n) && b != 0 && (n.t1[a] == b || n.t2[a] == b)
  }

  /** What leaving state s contributes to the word: its symbol, or nothing on an epsilon state. */
  ghost function Label(n: Net, s: int): seq<int> {
    if 1 <= s <= n.last && Sized(n) && n.tc[s] != SYM_EPSILON then [n.tc[s]] else []
  }

  /** p is a path of existing states. */
  ghost predicate IsPath(n: Net, p: seq<int>) {
    |p| > 0 && 1 <= p[0] <= n.last && (|p| > 1 ==> Edge(n, p[0], p[1]) && IsPath(n, p[1..]))
  }

  ghost function Word(n: Net, p: seq<int>): seq<int> {
    if |p| == 0 then [] else Label(n, p[0]) + Word(n, p[1..])
  }

  /** p leads from a to b and spells w, the symbol of b included. */
  ghost predicate Spells(n: Net, a: int, b: int, p: seq<int>, w: seq<int>) {
    IsPath(n, p) && p[0] == a && p[|p| - 1] == b && Word(n, p) == w
  }

  /** The words spelled from a to b. */
  ghost function Words(n: Net, a: int, b: int): Lang {
    iset w, p | Spells(n, a, b, p, w) :: w
  }

  lemma InWords(n: Net, a: int, b: int, p: seq<int>, w: seq<int>)
    requires Spells(n, a, b, p, w)
    ensures w in Words(n, a, b)
  {}

  lemma Witness(n: Net, a: int, b: int, w: seq<int>) returns (p: seq<int>)
    requires w in Words(n, a, b)
    ensures Spells(n, a, b, p, w)
  {
    p :| Spells(n, a, b, p, w);
  }

  lemma Single(n: Net, a: int)
    requires 1 <= a <= n.last
    ensures Spells(n, a, a, [a], Label(n, a)) && Label(n, a) in Words(n, a, a)
  {
    assert Word(n, [a]) == Label(n, a) + Word(n, [a][1..]);
    InWords(n, a, a, [a], Label(n, a));
  }

  /** Two paths joined by an edge. */
  lemma {:induction false} Join(n: Net, a: int, b: int, c: int, d: int, p: seq<int>, u: seq<int>, q: seq<int>,
                                v: seq<int>)
    requires Spells(n, a, b, p, u) && Edge(n, b, c) && Spells(n, c, d, q, v)
    ensures Spells(n, a, d, p + q, u + v)
    decreases |p|
  {
    assert (p + q)[1..] == p[1..] + q;
    if |p| == 1 {
      assert p[1..] + q == q && Word(n, p[1..]) == [];
      assert u == Label(n, a);
    } else {
      var l, u1 := Label(n, a), Word(n, p[1..]);
      Join(n, p[1], b, c, d, p[1..], u1, q, v);
      assert u + v == l + (u1 + v);
      assert Word(n, p + q) == l + (u1 + v);
    }
  }

  lemma JoinWords(n: Net, a: int, b: int, c: int, d: int, u: seq<int>, v: seq<int>)
    requires u in Words(n, a, b) && Edge(n, b, c) && v in Words(n, c, d)
    ensures u + v in Words(n, a, d)
  {
    var p := Witness(n, a, b, u);
    var q := Witness(n, c, d, v);
    Join(n, a, b, c, d, p, u, q, v);
    InWords(n, a, d, p + q, u + v);
  }

  /** A path of more than one state starts with an edge. */
  lemma Peel(n: Net, a: int, b: int, p: seq<int>, w: seq<int>)
    requires Spells(n, a, b, p, w) && |p| > 1
    ensures Edge(n, a, p[1]) && Spells(n, p[1], b, p[1..], Word(n, p[1..])) && w == Label(n, a) + Word(n, p[1..])
  {}

  // ----- one more edge

  /** more is n with the edge a -> b added. */
  ghost predicate Extended(n: Net, more: Net, a: int, b: int) {
    && Sized(n) && Sized(more) && more.last == n.last && 1 <= a <= n.last
    && (forall s :: 1 <= s <= n.last ==> more.tc[s] == n.tc[s])
    && (forall s, t :: Edge(more, s, t) <==> Edge(n, s, t) || (s == a && t == b))
  }

  /** The words of a net with one edge more: the old ones, and those that use the edge any number of times. */
  lemma AddEdge(n: Net, more: Net, a: int, b: int, s: int, t: int)
    requires Extended(n, more, a, b) && 1 <= b <= n.last
    ensures Words(more, s, t)
         == Words(n, s, t) + Cat(Words(n, s, a), Cat(Star(Words(n, b, a)), Words(n, b, t)))
  {
    var x := Cat(Star(Words(n, b, a)), Words(n, b, t));
    forall w | w in Words(more, s, t) ensures w in Words(n, s, t) + Cat(Words(n, s, a), x) {
      var p := Witness(more, s, t, w);
      AddEdgeSplit(n, more, a, b, s, t, p, w);
    }
    forall w | w in Words(n, s, t) ensures w in Words(more, s, t) {
      var p := Witness(n, s, t, w);
      OldPath(n, more, a, b, s, t, p, w);
      InWords(more, s, t, p, w);
    }
    forall w | w in Cat(Words(n, s, a), x) ensures w in Words(more, s, t) {
      var u, v :| u in Words(n, s, a) && v in x && w == u + v;
      AddEdgeLoop(n, more, a, b, t, v);
      var p := Witness(n, s, a, u);
      OldPath(n, more, a, b, s, a, p, u);
      InWords(more, s, a, p, u);
      JoinWords(more, s, a, b, t, u, v);
    }
  }

  lemma {:induction false} OldPath(n: Net, more: Net, a: int, b: int, s: int, t: int, p: seq<int>, w: seq<int>)
    requires Extended(n, more, a, b) && Spells(n, s, t, p, w)
    ensures Spells(more, s, t, p, w)
    decreases |p|
  {
    if |p| > 1 {
      Peel(n, s, t, p, w);
      OldPath(n, more, a, b, p[1], t, p[1..], Word(n, p[1..]));
    } else {
      assert Word(n, p[1..]) == [] == Word(more, p[1..]);
    }
  }

  lemma AddEdgeLoop(n: Net, more: Net, a: int, b: int, t: int, v: seq<int>)
    requires Extended(n, more, a, b) && 1 <= b <= n.last
    requires v in Cat(Star(Words(n, b, a)), Words(n, b, t))
    ensures v in Words(more, b, t)
  {
    var x, y :| x in Star(Words(n, b, a)) && y in Words(n, b, t) && v == x + y;
    var k: nat :| x in Pow(Words(n, b, a), k);
    AddEdgeRounds(n, more, a, b, t, k, x, y);
  }

  lemma {:induction false} AddEdgeRounds(n: Net, more: Net, a: int, b: int, t: int, k: nat, x: seq<int>, y: seq<int>)
    requires Extended(n, more, a, b) && 1 <= b <= n.last
    requires x in Pow(Words(n, b, a), k) && y in Words(n, b, t)
    ensures x + y in Words(more, b, t)
  {
    if k == 0 {
      assert x + y == y;
      var p := Witness(n, b, t, y);
      OldPath(n, more, a, b, b, t, p, y);
      InWords(more, b, t, p, y);
    } else {
      var u, x' :| u in Words(n, b, a) && x' in Pow(Words(n, b, a), k - 1) && x == u + x';
      AddEdgeRounds(n, more, a, b, t, k - 1, x', y);
      var p := Witness(n, b, a, u);
      OldPath(n, more, a, b, b, a, p, u);
      InWords(more, b, a, p, u);
      JoinWords(more, b, a, b, t, u, x' + y);
      assert x + y == u + (x' + y);
    }
  }

  lemma {:induction false} AddEdgeSplit(n: Net, more: Net, a: int, b: int, s: int, t: int, p: seq<int>, w: seq<int>)
    requires Extended(n, more, a, b) && 1 <= b <= n.last && Spells(more, s, t, p, w)
    ensures w in Words(n, s, t) + Cat(Words(n, s, a), Cat(Star(Words(n, b, a)), Words(n, b, t)))
    decreases |p|
  {
    hide Cat, Star, Words, Pow;
    var x := Cat(Star(Words(n, b, a)), Words(n, b, t));
    if |p| == 1 {
      Single(n, s);
      assert p == [s];
      Single(more, s);
    } else {
      Peel(more, s, t, p, w);
      var s1, w1 := p[1], Word(more, p[1..]);
      AddEdgeSplit(n, more, a, b, s1, t, p[1..], w1);
      Single(n, s);
      assert Label(n, s) == Label(more, s);
      StarUnroll(Words(n, b, a));
      if Edge(n, s, s1) {
        if w1 in Words(n, s1, t) {
          JoinWords(n, s, s, s1, t, Label(n, s), w1);
        } else {
          LaterEdge(n, s, s1, a, x, w1);
        }
      } else {
        assert s == a && s1 == b;
        LoopTail(n, a, b, t, w1);
        InCat(Label(n, a), w1, Words(n, a, a), x);
      }
    }
  }

  lemma LaterEdge(n: Net, s: int, s1: int, a: int, x: Lang, w1: seq<int>)
    requires Edge(n, s, s1) && w1 in Cat(Words(n, s1, a), x)
    ensures Label(n, s) + w1 in Cat(Words(n, s, a), x)
  {
    hide Words;
    var u, v :| u in Words(n, s1, a) && v in x && w1 == u + v;
    Single(n, s);
    JoinWords(n, s, s, s1, a, Label(n, s), u);
    InCat(Label(n, s) + u, v, Words(n, s, a), x);
    assert Label(n, s) + w1 == Label(n, s) + u + v;
  }

  lemma LoopTail(n: Net, a: int, b: int, t: int, w: seq<int>)
    requires w in Words(n, b, t) + Cat(Words(n, b, a), Cat(Star(Words(n, b, a)), Words(n, b, t)))
    ensures w in Cat(Star(Words(n, b, a)), Words(n, b, t))
  {
    var l, r := Words(n, b, a), Words(n, b, t);
    hide Cat, Star, Words, Pow;
    StarUnroll(l);
    CatUnion(UNIT, Cat(l, Star(l)), r);
    CatUnit(r);
    CatAssoc(l, Star(l), r);
  }

  // ----- closed ranges of states

  /** No edge leaves lo..hi. */
  ghost predicate Closed(n: Net, lo: int, hi: int) {
    && Sized(n) && 1 <= lo && hi <= n.last
    && forall s :: lo <= s <= hi ==> (n.t1[s] == 0 || lo <= n.t1[s] <= hi) && (n.t2[s] == 0 || lo <= n.t2[s] <= hi)
  }

  ghost predicate AgreeOn(n: Net, n': Net, lo: int, hi: int) {
    && Sized(n) && Sized(n') && hi <= n.last && hi <= n'.last && 1 <= lo
    && forall s :: lo <= s <= hi ==> n.tc[s] == n'.tc[s] && n.t1[s] == n'.t1[s] && n.t2[s] == n'.t2[s]
  }

  lemma Confined(n: Net, lo: int, hi: int, s: int, t: int)
    requires Closed(n, lo, hi) && lo <= s <= hi && !(lo <= t <= hi)
    ensures Words(n, s, t) == iset{}
  {
    forall w ensures w !in Words(n, s, t) {
      if w in Words(n, s, t) {
        var p := Witness(n, s, t, w);
        Inside(n, lo, hi, s, t, p, w);
      }
    }
  }

  lemma {:induction false} Inside(n: Net, lo: int, hi: int, s: int, t: int, p: seq<int>, w: seq<int>)
    requires Closed(n, lo, hi) && lo <= s <= hi && Spells(n, s, t, p, w)
    ensures forall k :: 0 <= k < |p| ==> lo <= p[k] <= hi
    decreases |p|
  {
    if |p| > 1 {
      Peel(n, s, t, p, w);
      Inside(n, lo, hi, p[1], t, p[1..], Word(n, p[1..]));
      assert forall k :: 1 <= k < |p| ==> p[k] == p[1..][k - 1];
    }
  }

  /** Only the states of a closed range matter for the words spelled inside it. */
  lemma Frame(n: Net, n': Net, lo: int, hi: int, s: int, t: int)
    requires Closed(n, lo, hi) && AgreeOn(n, n', lo, hi) && lo <= s <= hi
    ensures Words(n, s, t) == Words(n', s, t)
  {
    forall w ensures w in Words(n, s, t) <==> w in Words(n', s, t) {
      if w in Words(n, s, t) {
        var p := Witness(n, s, t, w);
        FramePath(n, n', lo, hi, s, t, p, w);
        InWords(n', s, t, p, w);
      }
      if w in Words(n', s, t) {
        var p := Witness(n', s, t, w);
        FramePath(n', n, lo, hi, s, t, p, w);
        InWords(n, s, t, p, w);
      }
    }
  }

  lemma {:induction false} FramePath(n: Net, n': Net, lo: int, hi: int, s: int, t: int, p: seq<int>, w: seq<int>)
    requires Closed(n, lo, hi) && AgreeOn(n, n', lo, hi) && lo <= s <= hi && Spells(n, s, t, p, w)
    ensures Spells(n', s, t, p, w)
    decreases |p|
  {
    if |p| > 1 {
      Peel(n, s, t, p, w);
      FramePath(n, n', lo, hi, p[1], t, p[1..], Word(n, p[1..]));
    } else {
      assert Word(n, p[1..]) == [] == Word(n', p[1..]);
    }
  }

  /** n' has at offset off a copy of the range lo..hi of n. */
  ghost predicate Copied(n: Net, n': Net, lo: int, hi: int, off: int) {
    && Sized(n) && Sized(n') && 1 <= lo && hi <= n.last && 1 <= lo + off && hi + off <= n'.last
    && forall s :: lo <= s <= hi ==> CopiedAt(n, n', s, off)
  }

  ghost predicate CopiedAt(n: Net, n': Net, s: int, off: int) {
    && Sized(n) && Sized(n') && 1 <= s <= n.last && 1 <= s + off <= n'.last
    && n'.tc[s + off] == n.tc[s]
    && n'.t1[s + off] == (if n.t1[s] == 0 then 0 else n.t1[s] + off)
    && n'.t2[s + off] == (if n.t2[s] == 0 then 0 else n.t2[s] + off)
  }

  /** A copied range spells the same words. */
  lemma Shift(n: Net, n': Net, lo: int, hi: int, off: int, s: int, t: int)
    requires Closed(n, lo, hi) && Copied(n, n', lo, hi, off) && lo <= s <= hi
    ensures Words(n', s + off, t + off) == Words(n, s, t)
  {
    CopyBack(n, n', lo, hi, off);
    forall w ensures w in Words(n', s + off, t + off) <==> w in Words(n, s, t) {
      if w in Words(n, s, t) {
        var p := Witness(n, s, t, w);
        ghost var q := ShiftPath(n, n', lo, hi, off, s, t, p, w);
        InWords(n', s + off, t + off, q, w);
      }
      if w in Words(n', s + off, t + off) {
        var p := Witness(n', s + off, t + off, w);
        ghost var q := ShiftPath(n', n, lo + off, hi + off, -off, s + off, t + off, p, w);
        InWords(n, s, t, q, w);
      }
    }
  }

  lemma CopyBack(n: Net, n': Net, lo: int, hi: int, off: int)
    requires Closed(n, lo, hi) && Copied(n, n', lo, hi, off)
    ensures Closed(n', lo + off, hi + off) && Copied(n', n, lo + off, hi + off, -off)
  {
    var back := -off;
    forall s | lo + off <= s <= hi + off
      ensures CopiedAt(n', n, s, back)
    {
      var r := s - off;
      assert CopiedAt(n, n', r, off);
      assert r + off == s && lo <= r <= hi;
      assert n.t1[r] == 0 || lo <= n.t1[r];
      assert n.t2[r] == 0 || lo <= n.t2[r];
    }
    forall s | lo + off <= s <= hi + off
      ensures (n'.t1[s] == 0 || lo + off <= n'.t1[s] <= hi + off) && (n'.t2[s] == 0 || lo + off <= n'.t2[s] <= hi + off)
    {
      assert CopiedAt(n, n', s - off, off);
    }
  }

  lemma {:induction false} ShiftPath(n: Net, n': Net, lo: int, hi: int, off: int, s: int, t: int, p: seq<int>,
                                     w: seq<int>)
    returns (q: seq<int>)
    requires Closed(n, lo, hi) && Copied(n, n', lo, hi, off) && lo <= s <= hi && Spells(n, s, t, p, w)
    ensures Spells(n', s + off, t + off, q, w)
    decreases |p|
  {
    assert CopiedAt(n, n', s, off);
    if |p| > 1 {
      Peel(n, s, t, p, w);
      var q1 := ShiftPath(n, n', lo, hi, off, p[1], t, p[1..], Word(n, p[1..]));
      assert CopiedAt(n, n', p[1], off);
      q := [s + off] + q1;
      assert q[1..] == q1;
    } else {
      q := [s + off];
      assert Word(n, p[1..]) == [] == Word(n', q[1..]);
    }
  }

  /** A state without edges. */
  lemma Isolated(n: Net, s: int, t: int)
    requires Sized(n) && 1 <= s <= n.last && n.t1[s] == 0 && n.t2[s] == 0
    ensures Words(n, s, t) == if t == s then iset{Label(n, s)} else iset{}
  {
    if t == s {
      Single(n, s);
      forall w | w in Words(n, s, s) ensures w == Label(n, s) {
        var p := Witness(n, s, s, w);
        if |p| > 1 { Peel(n, s, s, p, w); }
        assert p == [s];
      }
    } else {
      forall w ensures w !in Words(n, s, t) {
        if w in Words(n, s, t) {
          var p := Witness(n, s, t, w);
          if |p| > 1 { Peel(n, s, t, p, w); }
        }
      }
    }
  }

  /** An edge that cannot be used twice. */
  lemma OneWay(n: Net, more: Net, a: int, b: int, s: int, t: int)
    requires Extended(n, more, a, b) && 1 <= b <= n.last && Words(n, b, a) == iset{}
    ensures Words(more, s, t) == Words(n, s, t) + Cat(Words(n, s, a), Words(n, b, t))
  {
    AddEdge(n, more, a, b, s, t);
    hide Words, Cat, Star;
    StarEmpty();
    CatUnit(Words(n, b, t));
  }

  /** An edge to an epsilon state b without edges: b collects the words spelled to a. */
  lemma Collect(n: Net, more: Net, a: int, b: int, s: int, t: int)
    requires Extended(n, more, a, b) && 1 <= b <= n.last && a != b
    requires n.tc[b] == SYM_EPSILON && n.t1[b] == 0 && n.t2[b] == 0
    ensures Words(more, s, b) == Words(n, s, b) + Words(n, s, a)
    ensures t != b ==> Words(more, s, t) == Words(n, s, t)
  {
    Isolated(n, b, a);
    OneWay(n, more, a, b, s, b);
    assert Words(n, b, b) == UNIT by { Isolated(n, b, b); }
    hide Words, Cat, Star;
    CatUnit(Words(n, s, a));
    if t != b {
      OneWay(n, more, a, b, s, t);
      Isolated(n, b, t);
      CatEmpty(Words(n, s, a));
      NoMore(Words(n, s, t), Cat(Words(n, s, a), Words(n, b, t)));
    }
  }

  lemma NoMore(x: Lang, y: Lang)
    requires y == iset{}
    ensures x + y == x && y + x == x
  {}
}
