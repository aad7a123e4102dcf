/** Patterns, what they match, and their translation to machines (the pattern part of parse.y). */
module Regex {
  import opened Flexdef
  import opened Languages
  import opened Nets
  import opened Nfa

  // ----- patterns and their meaning

  /** One part of a bracket expression: a character, a range, or the characters of a class expression like [:digit:]. */
  datatype CclItem = One(c: int) | Span(lo: int, hi: int) | Expr(chars: seq<int>)

  datatype Re =
    | Char(c: int)
    | Any
    | Class(items: seq<CclItem>, negated: bool)
    | Str(chars: seq<int>)
    | Seq(first: Re, second: Re)
    | Alt(left: Re, right: Re)
    | Closure(re: Re)
    | Positive(re: Re)
    | Optional(re: Re)
    | Iterate(re: Re, lb: int, ub: int)
    | IterateFrom(re: Re, lb: int)
    | IterateExactly(re: Re, n: int)

  predicate InItem(it: CclItem, c: int) {
    match it
    case One(x) => c == x
    case Span(lo, hi) => lo <= c <= hi
    case Expr(chars) => c in chars
  }

  ghost predicate InItems(items: seq<CclItem>, c: int) {
    exists k :: 0 <= k < |items| && InItem(items[k], c)
  }

  ghost function Chars(csize: int, f: int -> bool): Lang {
    iset c | 0 <= c < csize && f(c) :: [c]
  }

  /** The strings a pattern denotes. Where the parser reports a bad iteration it goes on with the pattern itself. */
  ghost function Denotes(re: Re, csize: int): Lang {
    match re
    case Char(c) => iset{[c]}
    case Any => Chars(csize, c => c != 10)
    case Class(items, negated) => ClassChars(items, negated, csize)
    case Str(chars) => iset{chars}
    case Seq(a, b) => Cat(Denotes(a, csize), Denotes(b, csize))
    case Alt(a, b) => Denotes(a, csize) + Denotes(b, csize)
    case Closure(a) => Star(Denotes(a, csize))
    case Positive(a) => Plus(Denotes(a, csize))
    case Optional(a) => UNIT + Denotes(a, csize)
    case Iterate(a, lb, ub) => if BadIteration(lb, ub) then Denotes(a, csize) else Times(Denotes(a, csize), lb, ub)
    case IterateFrom(a, lb) => if lb <= 0 then Denotes(a, csize) else AtLeast(Denotes(a, csize), lb)
    case IterateExactly(a, n) => if n <= 0 then Denotes(a, csize) else Pow(Denotes(a, csize), n)
  }

  ghost function ClassChars(items: seq<CclItem>, negated: bool, csize: int): Lang {
    iset c | 0 <= c < csize && (InItems(items, c) != negated) :: [c]
  }

  predicate BadIteration(lb: int, ub: int) {
    lb > ub || lb < 0 || ub <= 0
  }

  predicate ProperItem(it: CclItem) {
    match it
    case One(x) => x >= 0
    case Span(lo, hi) => lo >= 0
    case Expr(chars) => forall k :: 0 <= k < |chars| ==> chars[k] >= 0
  }

  /** Characters are not negative, and no larger than those a Char can hold. */
  predicate Proper(re: Re) {
    match re
    case Char(c) => 0 <= c <= CSIZE
    case Any => true
    case Class(items, _) => forall k :: 0 <= k < |items| ==> ProperItem(items[k])
    case Str(chars) => forall k :: 0 <= k < |chars| ==> 0 <= chars[k] <= CSIZE
    case Seq(a, b) => Proper(a) && Proper(b)
    case Alt(a, b) => Proper(a) && Proper(b)
    case Closure(a) => Proper(a)
    case Positive(a) => Proper(a)
    case Optional(a) => Proper(a)
    case Iterate(a, _, _) => Proper(a)
    case IterateFrom(a, _) => Proper(a)
    case IterateExactly(a, _) => Proper(a)
  }

  /** The parser does not complain: no range runs backwards, and all numbers of repetitions make sense. */
  predicate WellFormed(re: Re) {
    match re
    case Class(items, _) => !BadItems(items)
    case Seq(a, b) => WellFormed(a) && WellFormed(b)
    case Alt(a, b) => WellFormed(a) && WellFormed(b)
    case Closure(a) => WellFormed(a)
    case Positive(a) => WellFormed(a)
    case Optional(a) => WellFormed(a)
    case Iterate(a, lb, ub) => WellFormed(a) && !BadIteration(lb, ub)
    case IterateFrom(a, lb) => WellFormed(a) && lb > 0
    case IterateExactly(a, n) => WellFormed(a) && n > 0
    case _ => true
  }

  predicate BadItems(items: seq<CclItem>) {
    exists k :: 0 <= k < |items| && BadItem(items[k])
  }

  predicate BadItem(it: CclItem) {
    it.Span? && it.lo > it.hi
  }

  /** An item is bad exactly if it is a range without characters. */
  lemma BadItemMeans(it: CclItem)
    ensures BadItem(it) <==> it.Span? && forall c :: !InItem(it, c)
  {
    if it.Span? && it.lo <= it.hi { assert InItem(it, it.lo); }
  }

  lemma BadItemsMean(items: seq<CclItem>)
    ensures BadItems(items) <==> exists k :: 0 <= k < |items| && EmptyRange(items[k])
  {
    forall k | 0 <= k < |items| ensures BadItem(items[k]) <==> EmptyRange(items[k]) { BadItemMeans(items[k]); }
  }

  ghost predicate EmptyRange(it: CclItem) {
    it.Span? && forall c :: !InItem(it, c)
  }

  /** Numbers of repetitions are bad exactly if they are negative, or there is no positive number in their range. */
  lemma BadIterationMeans(lb: int, ub: int)
    ensures BadIteration(lb, ub) <==> lb < 0 || forall n :: !PositiveIn(n, lb, ub)
  {
    if !BadIteration(lb, ub) { assert PositiveIn(ub, lb, ub); }
  }

  predicate PositiveIn(n: int, lb: int, ub: int) {
    n > 0 && lb <= n <= ub
  }

  /** Every bracket expression in the pattern has a character. */
  ghost predicate Inhabited(re: Re, csize: int) {
    match re
    case Class(items, negated) => exists c :: 0 <= c < csize && InItems(items, c) != negated
    case Seq(a, b) => Inhabited(a, csize) && Inhabited(b, csize)
    case Alt(a, b) => Inhabited(a, csize) && Inhabited(b, csize)
    case Closure(a) => Inhabited(a, csize)
    case Positive(a) => Inhabited(a, csize)
    case Optional(a) => Inhabited(a, csize)
    case Iterate(a, _, _) => Inhabited(a, csize)
    case IterateFrom(a, _) => Inhabited(a, csize)
    case IterateExactly(a, _) => Inhabited(a, csize)
    case _ => true
  }

  // ----- what it takes to compile a pattern

  predicate HeldItem(it: CclItem, csize: int) {
    match it
    case One(x) => x < csize
    case Span(lo, hi) => lo > hi || hi < csize
    case Expr(chars) => forall k :: 0 <= k < |chars| ==> chars[k] < csize
  }

  predicate HeldItems(items: seq<CclItem>, csize: int) {
    forall k :: 0 <= k < |items| ==> HeldItem(items[k], csize)
  }

  /** All characters of the pattern are in the character set. */
  predicate Held(re: Re, csize: int) {
    match re
    case Char(c) => c < csize
    case Any => true
    case Class(items, _) => HeldItems(items, csize)
    case Str(chars) => forall k :: 0 <= k < |chars| ==> chars[k] < csize
    case Seq(a, b) => Held(a, csize) && Held(b, csize)
    case Alt(a, b) => Held(a, csize) && Held(b, csize)
    case Closure(a) => Held(a, csize)
    case Positive(a) => Held(a, csize)
    case Optional(a) => Held(a, csize)
    case Iterate(a, _, _) => Held(a, csize)
    case IterateFrom(a, _) => Held(a, csize)
    case IterateExactly(a, _) => Held(a, csize)
  }

  /** The states that a postfix operator makes for a machine with size states. */
  function WrapStates(re: Re, size: nat, e: Ending): (n: nat) {
    match re
    case Closure(_) => PosStates(e) + OptStates(Used)
    case Positive(_) => PosStates(e)
    case Optional(_) => OptStates(e)
    case Iterate(_, lb, ub) => FromToStates(size, e, lb, ub)
    case IterateFrom(_, lb) => FromStates(size, e, lb)
    case IterateExactly(_, n) => ExactStates(size, n)
    case _ => 0
  }

  function FromToStates(size: nat, e: Ending, lb: int, ub: int): nat {
    if BadIteration(lb, ub) then 0
    else if lb == 0 then RepStates(size, e, 1, ub) + OptStates(Open)
    else RepStates(size, e, lb, ub)
  }

  function FromStates(size: nat, e: Ending, lb: int): nat {
    if lb <= 0 then 0 else RepStates(size, e, lb, INFINITY)
  }

  function ExactStates(size: nat, n: int): nat {
    CopiesNone(n - 1, size);
    if n <= 0 then 0 else 1 + Copies(n - 1, size)
  }

  function WrapEnd(re: Re, e: Ending): Ending {
    match re
    case Closure(_) => Open
    case Positive(_) => Used
    case Optional(_) => Open
    case Iterate(_, lb, ub) => if BadIteration(lb, ub) then e else Open
    case IterateFrom(_, lb) => if lb <= 0 then e else Open
    case IterateExactly(_, n) => if n == 1 then Open else e
    case _ => e
  }

  /** How many NFA states the machine of a pattern has, and what it ends in. */
  function States(re: Re): nat {
    match re
    case Char(_) | Any | Class(_, _) => 1
    case Str(chars) => 1 + |chars|
    case Seq(a, b) => States(a) + States(b)
    case Alt(a, b) => States(a) + States(b) + OrStates(End(a), End(b))
    case Closure(a) => States(a) + WrapStates(re, States(a), End(a))
    case Positive(a) => States(a) + WrapStates(re, States(a), End(a))
    case Optional(a) => States(a) + WrapStates(re, States(a), End(a))
    case Iterate(a, _, _) => States(a) + WrapStates(re, States(a), End(a))
    case IterateFrom(a, _) => States(a) + WrapStates(re, States(a), End(a))
    case IterateExactly(a, _) => States(a) + WrapStates(re, States(a), End(a))
  }

  function End(re: Re): Ending {
    match re
    case Char(_) | Any | Class(_, _) => Letter
    case Str(chars) => if chars == [] then Open else Letter
    case Seq(_, b) => End(b)
    case Alt(_, _) => Open
    case Closure(a) => WrapEnd(re, End(a))
    case Positive(a) => WrapEnd(re, End(a))
    case Optional(a) => WrapEnd(re, End(a))
    case Iterate(a, _, _) => WrapEnd(re, End(a))
    case IterateFrom(a, _) => WrapEnd(re, End(a))
    case IterateExactly(a, _) => WrapEnd(re, End(a))
  }

  // ----- reading label words as strings

  datatype ClassInfo = ClassInfo(members: seq<int>, negated: bool)

  ghost predicate HasChar(info: ClassInfo, csize: int) {
    exists c :: 0 <= c < csize && (c in info.members) != info.negated
  }

  ghost predicate NoneEmpty(cls: seq<ClassInfo>, csize: int) {
    forall i :: 0 <= i < |cls| ==> HasChar(cls[i], csize)
  }

  /** The classes that a pattern has added have characters, if all of its own have. */
  ghost predicate StillInhabited(before: seq<ClassInfo>, after: seq<ClassInfo>, re: Re, csize: int) {
    Inhabited(re, csize) && NoneEmpty(before, csize) ==> NoneEmpty(after, csize)
  }

  /** Character c takes a transition with this label. */
  ghost predicate Matches(sym: int, c: int, cls: seq<ClassInfo>, csize: int) {
    && 0 <= c < csize
    && if sym >= 0 then c == sym
       else -sym <= |cls| && ((c in cls[-sym - 1].members) != cls[-sym - 1].negated)
  }

  ghost predicate ReadsAs(u: seq<int>, w: seq<int>, cls: seq<ClassInfo>, csize: int) {
    |u| == |w| && forall i :: 0 <= i < |u| ==> Matches(u[i], w[i], cls, csize)
  }

  /** The strings that match some label word of l. */
  ghost function Read(l: Lang, cls: seq<ClassInfo>, csize: int): Lang {
    iset u, w | u in l && ReadsAs(u, w, cls, csize) :: w
  }

  lemma InRead(u: seq<int>, w: seq<int>, l: Lang, cls: seq<ClassInfo>, csize: int)
    requires u in l && ReadsAs(u, w, cls, csize)
    ensures w in Read(l, cls, csize)
  {}

  lemma FromRead(w: seq<int>, l: Lang, cls: seq<ClassInfo>, csize: int) returns (u: seq<int>)
    requires w in Read(l, cls, csize)
    ensures u in l && ReadsAs(u, w, cls, csize)
  {
    u :| u in l && ReadsAs(u, w, cls, csize);
  }

  lemma ReadUnit(cls: seq<ClassInfo>, csize: int)
    ensures Read(UNIT, cls, csize) == UNIT
  {
    forall w ensures w in Read(UNIT, cls, csize) <==> w in UNIT {
      if w in Read(UNIT, cls, csize) { var u := FromRead(w, UNIT, cls, csize); }
      if w in UNIT { InRead([], w, UNIT, cls, csize); }
    }
  }

  lemma ReadUnion(a: Lang, b: Lang, cls: seq<ClassInfo>, csize: int)
    ensures Read(a + b, cls, csize) == Read(a, cls, csize) + Read(b, cls, csize)
  {
    hide ReadsAs;
    forall w ensures w in Read(a + b, cls, csize) <==> w in Read(a, cls, csize) + Read(b, cls, csize) {}
  }

  lemma ReadCat(a: Lang, b: Lang, cls: seq<ClassInfo>, csize: int)
    ensures Read(Cat(a, b), cls, csize) == Cat(Read(a, cls, csize), Read(b, cls, csize))
  {
    hide Read, Cat;
    forall w ensures w in Read(Cat(a, b), cls, csize) <==> w in Cat(Read(a, cls, csize), Read(b, cls, csize)) {
      if w in Read(Cat(a, b), cls, csize) { ReadCatSplit(a, b, cls, csize, w); }
      if w in Cat(Read(a, cls, csize), Read(b, cls, csize)) { ReadCatJoin(a, b, cls, csize, w); }
    }
  }

  lemma ReadCatSplit(a: Lang, b: Lang, cls: seq<ClassInfo>, csize: int, w: seq<int>)
    requires w in Read(Cat(a, b), cls, csize)
    ensures w in Cat(Read(a, cls, csize), Read(b, cls, csize))
  {
    var u := FromRead(w, Cat(a, b), cls, csize);
    var x, y :| x in a && y in b && u == x + y;
    var w1, w2 := w[..|x|], w[|x|..];
    forall i | 0 <= i < |x| ensures Matches(x[i], w1[i], cls, csize) { assert Matches(u[i], w[i], cls, csize); }
    forall i | 0 <= i < |y| ensures Matches(y[i], w2[i], cls, csize) {
      assert Matches(u[|x| + i], w[|x| + i], cls, csize);
    }
    InRead(x, w1, a, cls, csize);
    InRead(y, w2, b, cls, csize);
    InCat(w1, w2, Read(a, cls, csize), Read(b, cls, csize));
    assert w == w1 + w2;
  }

  lemma ReadCatJoin(a: Lang, b: Lang, cls: seq<ClassInfo>, csize: int, w: seq<int>)
    requires w in Cat(Read(a, cls, csize), Read(b, cls, csize))
    ensures w in Read(Cat(a, b), cls, csize)
  {
    var w1, w2 :| w1 in Read(a, cls, csize) && w2 in Read(b, cls, csize) && w == w1 + w2;
    var x := FromRead(w1, a, cls, csize);
    var y := FromRead(w2, b, cls, csize);
    InCat(x, y, a, b);
    InRead(x + y, w, Cat(a, b), cls, csize);
  }

  lemma {:induction false} ReadPow(a: Lang, n: nat, cls: seq<ClassInfo>, csize: int)
    ensures Read(Pow(a, n), cls, csize) == Pow(Read(a, cls, csize), n)
  {
    hide Read, Cat;
    if n == 0 {
      ReadUnit(cls, csize);
    } else {
      ReadPow(a, n - 1, cls, csize);
      ReadCat(a, Pow(a, n - 1), cls, csize);
    }
  }

  /** Reading commutes with every way of repeating. */
  lemma ReadRepeats(a: Lang, cls: seq<ClassInfo>, csize: int, lo: nat, hi: nat)
    ensures Read(Times(a, lo, hi), cls, csize) == Times(Read(a, cls, csize), lo, hi)
    ensures Read(AtLeast(a, lo), cls, csize) == AtLeast(Read(a, cls, csize), lo)
    ensures Read(Star(a), cls, csize) == Star(Read(a, cls, csize))
    ensures Read(Plus(a), cls, csize) == Plus(Read(a, cls, csize))
  {
    hide Pow;
    var b := Read(a, cls, csize);
    forall n: nat ensures Read(Pow(a, n), cls, csize) == Pow(b, n) { ReadPow(a, n, cls, csize); }
    forall w ensures w in Read(Times(a, lo, hi), cls, csize) <==> w in Times(b, lo, hi) {
      ReadTimesAt(a, b, cls, csize, lo, hi, w);
    }
    forall w ensures w in Read(AtLeast(a, lo), cls, csize) <==> w in AtLeast(b, lo) {
      ReadAtLeastAt(a, b, cls, csize, lo, w);
    }
    StarAtLeast(a);
    StarAtLeast(b);
    forall w ensures w in Read(AtLeast(a, 0), cls, csize) <==> w in AtLeast(b, 0) {
      ReadAtLeastAt(a, b, cls, csize, 0, w);
    }
    ReadCat(a, Star(a), cls, csize);
  }

  lemma StarAtLeast(a: Lang)
    ensures Star(a) == AtLeast(a, 0)
  {}

  lemma ReadTimesAt(a: Lang, b: Lang, cls: seq<ClassInfo>, csize: int, lo: nat, hi: nat, w: seq<int>)
    requires forall n: nat :: Read(Pow(a, n), cls, csize) == Pow(b, n)
    ensures w in Read(Times(a, lo, hi), cls, csize) <==> w in Times(b, lo, hi)
  {
    hide Pow;
    if w in Read(Times(a, lo, hi), cls, csize) {
      var u := FromRead(w, Times(a, lo, hi), cls, csize);
      var n: nat :| lo <= n <= hi && u in Pow(a, n);
      InRead(u, w, Pow(a, n), cls, csize);
    }
    if w in Times(b, lo, hi) {
      var n: nat :| lo <= n <= hi && w in Pow(b, n);
      var u := FromRead(w, Pow(a, n), cls, csize);
      InRead(u, w, Times(a, lo, hi), cls, csize);
    }
  }

  lemma ReadAtLeastAt(a: Lang, b: Lang, cls: seq<ClassInfo>, csize: int, lo: nat, w: seq<int>)
    requires forall n: nat :: Read(Pow(a, n), cls, csize) == Pow(b, n)
    ensures w in Read(AtLeast(a, lo), cls, csize) <==> w in AtLeast(b, lo)
  {
    hide Pow;
    if w in Read(AtLeast(a, lo), cls, csize) {
      var u := FromRead(w, AtLeast(a, lo), cls, csize);
      var n: nat :| lo <= n && u in Pow(a, n);
      InRead(u, w, Pow(a, n), cls, csize);
    }
    if w in AtLeast(b, lo) {
      var n: nat :| lo <= n && w in Pow(b, n);
      var u := FromRead(w, Pow(a, n), cls, csize);
      InRead(u, w, AtLeast(a, lo), cls, csize);
    }
  }

  lemma ReadSymbol(sym: int, cls: seq<ClassInfo>, csize: int)
    requires sym != SYM_EPSILON
    ensures Read(Symbol(sym), cls, csize) == iset c | Matches(sym, c, cls, csize) :: [c]
  {
    forall w ensures w in Read(Symbol(sym), cls, csize) <==> |w| == 1 && Matches(sym, w[0], cls, csize) {
      if w in Read(Symbol(sym), cls, csize) { var u := FromRead(w, Symbol(sym), cls, csize); }
      if |w| == 1 && Matches(sym, w[0], cls, csize) { InRead([sym], w, Symbol(sym), cls, csize); }
    }
    forall w: seq<int> | |w| == 1 ensures w == [w[0]] {}
  }

  /** The labels of l are characters or refer to the first k classes. */
  ghost predicate Labelled(l: Lang, k: int) {
    forall u :: u in l ==> WordLabelled(u, k)
  }

  ghost predicate WordLabelled(u: seq<int>, k: int) {
    forall i :: 0 <= i < |u| ==> u[i] >= -k
  }

  /** New classes do not change what is read into old labels. */
  lemma ReadStable(l: Lang, cls: seq<ClassInfo>, cls': seq<ClassInfo>, csize: int)
    requires Labelled(l, |cls|) && cls <= cls'
    ensures Read(l, cls', csize) == Read(l, cls, csize)
  {
    hide ReadsAs;
    forall u, w | u in l ensures ReadsAs(u, w, cls', csize) <==> ReadsAs(u, w, cls, csize) {
      ReadsStable(u, w, cls, cls', csize);
    }
    forall w ensures w in Read(l, cls', csize) <==> w in Read(l, cls, csize) {}
  }

  lemma ReadsStable(u: seq<int>, w: seq<int>, cls: seq<ClassInfo>, cls': seq<ClassInfo>, csize: int)
    requires WordLabelled(u, |cls|) && cls <= cls'
    ensures ReadsAs(u, w, cls', csize) <==> ReadsAs(u, w, cls, csize)
  {
    if |u| == |w| {
      forall i | 0 <= i < |u| ensures Matches(u[i], w[i], cls', csize) <==> Matches(u[i], w[i], cls, csize) {}
    }
  }

  lemma {:induction false} PathLabelled(n: Net, p: seq<int>, k: int)
    requires Sized(n) && (forall s :: 1 <= s <= n.last ==> n.tc[s] == SYM_EPSILON || n.tc[s] >= -k)
    ensures WordLabelled(Word(n, p), k)
  {
    if |p| > 0 { PathLabelled(n, p[1..], k); }
  }

  lemma WordsLabelled(n: Net, a: int, b: int, k: int)
    requires Sized(n) && (forall s :: 1 <= s <= n.last ==> n.tc[s] == SYM_EPSILON || n.tc[s] >= -k)
    ensures Labelled(Words(n, a, b), k)
  {
    forall u | u in Words(n, a, b) ensures WordLabelled(u, k) {
      var p := Witness(n, a, b, u);
      PathLabelled(n, p, k);
    }
  }
}
