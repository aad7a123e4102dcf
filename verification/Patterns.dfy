/** The parser's actions: character classes are entered and split the partition of the characters,
    patterns become machines (parse.y). */
module Patterns {
  import opened Flexdef
  import opened Results
  import opened Languages
  import opened Machines
  import opened Ccl
  import opened Nfa
  import opened Regex
  import opened Divisions
  import opened Sorting
  import Ecs

  // ----- gathering the members of a class

  ghost predicate Distinct(m: seq<int>) {
    forall p, q :: 0 <= p < q < |m| ==> m[p] != m[q]
  }

  /** Strictly ascending from 1 to last. */
  ghost predicate Ascending(m: seq<int>, last: int) {
    (forall p, q :: 0 <= p < q < |m| ==> m[p] < m[q]) && (forall p :: 0 <= p < |m| ==> 1 <= m[p] <= last)
  }

  /** m holds each of the characters of items once; when sorted is set it is ascending and ends at lastchar. */
  ghost predicate Gathered(m: seq<int>, items: seq<CclItem>, csize: int, sorted: bool, lastchar: int) {
    && Distinct(m) && 0 <= lastchar && (sorted ==> Ascending(m, lastchar))
    && (forall p :: 0 <= p < |m| ==> 0 <= m[p] < csize)
    && (forall c :: c in m <==> InItems(items, c))
  }

  /** One more character, unless it is already there. */
  ghost function With(m: seq<int>, c: int): seq<int> {
    if c in m then m else m + [c]
  }

  /** m' is m with the characters lo..hi-1 added. */
  ghost predicate Ranged(m: seq<int>, m': seq<int>, lo: int, hi: int, csize: int, sorted: bool, lastchar: int) {
    && Distinct(m') && (sorted ==> Ascending(m', if hi > lo then hi - 1 else lastchar))
    && (forall p :: 0 <= p < |m'| ==> 0 <= m'[p] < csize)
    && (forall c :: c in m' <==> c in m || lo <= c < hi)
  }

  lemma RangedStart(m: seq<int>, items: seq<CclItem>, csize: int, sorted: bool, lastchar: int, lo: int)
    requires Gathered(m, items, csize, sorted, lastchar)
    ensures Ranged(m, m, lo, lo, csize, sorted && lo > lastchar, lastchar)
  {}

  lemma RangedStep(m: seq<int>, m': seq<int>, lo: int, hi: int, csize: int, sorted: bool, lastchar: int)
    requires Ranged(m, m', lo, hi, csize, sorted, lastchar) && 0 <= lo <= hi < csize && 0 <= lastchar
             && (sorted ==> lo > lastchar)
    ensures Ranged(m, With(m', hi), lo, hi + 1, csize, sorted, lastchar)
  {
    var m2 := With(m', hi);
    forall c ensures c in m2 <==> c in m || lo <= c < hi + 1 {}
  }

  lemma GatheredMore(m: seq<int>, m': seq<int>, items: seq<CclItem>, it: CclItem, csize: int, sorted: bool,
                     sorted': bool, lastchar: int, lastchar': int)
    requires Gathered(m, items, csize, sorted, lastchar) && 0 <= lastchar'
    requires Distinct(m') && (sorted' ==> Ascending(m', lastchar'))
             && (forall p :: 0 <= p < |m'| ==> 0 <= m'[p] < csize)
    requires forall c :: c in m' <==> c in m || InItem(it, c)
    ensures Gathered(m', items + [it], csize, sorted', lastchar')
  {
    forall c ensures c in m' <==> InItems(items + [it], c) {
      if InItems(items, c) {
        var k :| 0 <= k < |items| && InItem(items[k], c);
        assert (items + [it])[k] == items[k];
      }
      if InItem(it, c) { assert (items + [it])[|items|] == it; }
    }
  }

  // ----- the class as it is stored

  /** In order and distinct means strictly ascending once NUL is read as csize. */
  lemma StoredOrdered(m: seq<int>, csize: nat)
    requires Distinct(m) && Ordered(m, 0, |m|, true) && csize <= CSIZE
             && (forall p :: 0 <= p < |m| ==> 0 <= m[p] < csize)
    ensures Ecs.ClassOk(Ecs.Mapped(m, csize), csize)
  {}

  lemma StoredAscending(m: seq<int>, csize: int, last: int)
    requires Ascending(m, last)
    ensures Ordered(m, 0, |m|, true)
  {}

  lemma {:induction false} DistinctSize(m: seq<int>, c: int, csize: nat)
    requires Distinct(m) && (forall p :: 0 <= p < |m| ==> 0 <= m[p] < csize) && 0 <= c < csize && c !in m
    ensures |m| < csize
  {
    var members := set x | x in m;
    SetOfDistinct(m);
    BelowSize(csize);
    assert members + {c} <= Below(csize);
    SubsetSize(members + {c}, Below(csize));
  }

  lemma {:induction false} SetOfDistinct(m: seq<int>)
    requires Distinct(m)
    ensures |set x | x in m| == |m|
  {
    if m != [] {
      var k := |m| - 1;
      SetOfDistinct(m[..k]);
      assert forall x :: x in m <==> x in m[..k] || x == m[k];
      assert (set x | x in m) == (set x | x in m[..k]) + {m[k]};
      assert m[k] !in m[..k];
    }
  }

  ghost function Below(n: nat): set<int> {
    if n == 0 then {} else Below(n - 1) + {n - 1}
  }

  lemma {:induction false} BelowSize(n: nat)
    ensures |Below(n)| == n && forall x :: x in Below(n) <==> 0 <= x < n
  {
    if n > 0 { BelowSize(n - 1); }
  }

  lemma {:induction false} SubsetSize<T>(a: set<T>, b: set<T>)
    requires a <= b
    ensures |a| <= |b|
  {
    if a != {} {
      var x :| x in a;
      SubsetSize(a - {x}, b - {x});
    }
  }

  /** Sorting keeps the members, and keeps them distinct. */
  lemma SortedMembers(a: seq<int>, b: seq<int>)
    requires multiset(a) == multiset(b)
    ensures forall c :: c in a <==> c in b
    ensures Distinct(a) ==> Distinct(b)
  {
    forall c ensures c in a <==> c in b {
      assert c in a <==> c in multiset(a);
      assert c in b <==> c in multiset(b);
    }
    if Distinct(a) {
      DistinctOnce(a);
      forall p, q | 0 <= p < q < |b| ensures b[p] != b[q] {
        if b[p] == b[q] {
          TwiceCounts(b, p, q);
        }
      }
    }
  }

  lemma {:induction false} DistinctOnce(a: seq<int>)
    requires Distinct(a)
    ensures forall x :: multiset(a)[x] <= 1
  {
    if a != [] {
      var k := |a| - 1;
      DistinctOnce(a[..k]);
      assert a == a[..k] + [a[k]];
      assert a[k] !in a[..k];
      assert a[k] !in multiset(a[..k]);
    }
  }

  lemma TwiceCounts(b: seq<int>, p: int, q: int)
    requires 0 <= p < q < |b| && b[p] == b[q]
    ensures multiset(b)[b[p]] >= 2
  {
    assert b == b[..q] + b[q..];
    assert b[p] in b[..q] && b[q] in b[q..];
    assert b[..q][p] == b[p] && b[q..][0] == b[p];
    assert multiset(b) == multiset(b[..q]) + multiset(b[q..]);
    assert b[p] in multiset(b[..q]) && b[p] in multiset(b[q..]);
  }

  // ----- classes in the table

  ghost function InfoBelow(ccls: CclTable, k: int): seq<ClassInfo>
    requires 0 <= k < |ccls.cclng|
    reads ccls, ccls.ccltbl
  {
    var cclng := ccls.cclng;
    seq(k, i requires 0 <= i < k reads ccls, ccls.ccltbl => ClassInfo(ccls.Members(i + 1), cclng[i + 1] != 0))
  }

  /** The classes so far. */
  ghost function Classes(ccls: CclTable): (cls: seq<ClassInfo>)
    reads ccls, ccls.ccltbl
    ensures 0 <= ccls.lastccl < |ccls.cclng| ==> |cls| == ccls.lastccl
  {
    if 0 <= ccls.lastccl < |ccls.cclng| then InfoBelow(ccls, ccls.lastccl) else []
  }

  /** ccladd for the characters lo..hi. */
  method AddRange(ccls: CclTable, ccl: int, lo: int, hi: int, csize: int, ghost items: seq<CclItem>, ghost sorted: bool,
                  ghost lastchar: int)
    returns (r: Result<()>)
    requires ccls.Valid() && 1 <= ccl == ccls.lastccl && 0 <= lo <= hi && csize <= CSIZE
    requires Gathered(ccls.Members(ccl), items, csize, sorted, lastchar)
    modifies ccls`ccllen, ccls`ccltbl, ccls.ccltbl
    ensures ccls.Valid() && (ccls.ccltbl == old(ccls.ccltbl) || fresh(ccls.ccltbl))
    ensures r.Failure? ==> r.error == BadCharacter && hi >= csize
    ensures r.Success? ==> hi < csize
    ensures InfoBelow(ccls, ccl - 1) == old(InfoBelow(ccls, ccl - 1))
    ensures r.Success? ==> Ranged(old(ccls.Members(ccl)), ccls.Members(ccl), lo, hi + 1, csize, sorted
                             && lo > lastchar, lastchar)
  {
    hide Ranged, Gathered, Layout, Segment;
    ghost var m0 := ccls.Members(ccl);
    RangedStart(m0, items, csize, sorted, lastchar, lo);
    LastcharOk(m0, items, csize, sorted, lastchar);
    var i := lo;
    while i <= hi
      invariant lo <= i <= hi + 1 && (i == lo || i <= csize)
      invariant ccls.Valid() && (ccls.ccltbl == old(ccls.ccltbl) || fresh(ccls.ccltbl))
      invariant InfoBelow(ccls, ccl - 1) == old(InfoBelow(ccls, ccl - 1))
      invariant Ranged(m0, ccls.Members(ccl), lo, i, csize, sorted && lo > lastchar, lastchar)
    {
      ghost var m, b := ccls.Members(ccl), InfoBelow(ccls, ccl - 1);
      r := ccls.CclAdd(ccl, i, csize);
      assert InfoBelow(ccls, ccl - 1) == b;
      if r.Failure? { return; }
      RangedStep(m0, m, lo, i, csize, sorted && lo > lastchar, lastchar);
      i := i + 1;
    }
    r := Success(());
  }

  lemma LastcharOk(m: seq<int>, items: seq<CclItem>, csize: int, sorted: bool, lastchar: int)
    requires Gathered(m, items, csize, sorted, lastchar)
    ensures 0 <= lastchar
  {}

  /** The characters of a class expression. */
  method AddExpr(ccls: CclTable, ccl: int, chars: seq<int>, csize: int, ghost items: seq<CclItem>, ghost sorted: bool,
                 ghost lastchar: int)
    returns (r: Result<()>)
    requires ccls.Valid() && 1 <= ccl == ccls.lastccl && csize <= CSIZE && ProperItem(Expr(chars))
    requires Gathered(ccls.Members(ccl), items, csize, sorted, lastchar)
    modifies ccls`ccllen, ccls`ccltbl, ccls.ccltbl
    ensures ccls.Valid() && (ccls.ccltbl == old(ccls.ccltbl) || fresh(ccls.ccltbl))
    ensures r.Failure? ==> r.error == BadCharacter && !HeldItem(Expr(chars), csize)
    ensures r.Success? ==> HeldItem(Expr(chars), csize)
    ensures InfoBelow(ccls, ccl - 1) == old(InfoBelow(ccls, ccl - 1))
    ensures r.Success? ==> Gathered(ccls.Members(ccl), items + [Expr(chars)], csize, false, lastchar)
  {
    hide Gathered, Layout, Segment;
    ghost var m0 := ccls.Members(ccl);
    ExprStart(m0, items, csize, sorted, lastchar);
    var k := 0;
    while k < |chars|
      invariant 0 <= k <= |chars| && forall j :: 0 <= j < k ==> chars[j] < csize
      invariant ccls.Valid() && (ccls.ccltbl == old(ccls.ccltbl) || fresh(ccls.ccltbl))
      invariant InfoBelow(ccls, ccl - 1) == old(InfoBelow(ccls, ccl - 1))
      invariant Gathered(ccls.Members(ccl), items + [Expr(chars[..k])], csize, false, lastchar)
    {
      ghost var m, b := ccls.Members(ccl), InfoBelow(ccls, ccl - 1);
      r := ccls.CclAdd(ccl, chars[k], csize);
      assert InfoBelow(ccls, ccl - 1) == b;
      if r.Failure? { return; }
      ExprStep(m, items, chars, k, csize, lastchar);
      k := k + 1;
    }
    assert chars[..k] == chars;
    r := Success(());
  }

  lemma ExprStart(m: seq<int>, items: seq<CclItem>, csize: int, sorted: bool, lastchar: int)
    requires Gathered(m, items, csize, sorted, lastchar)
    ensures Gathered(m, items + [Expr([])], csize, false, lastchar)
  {
    GatheredMore(m, m, items, Expr([]), csize, sorted, false, lastchar, lastchar);
  }

  lemma ExprStep(m: seq<int>, items: seq<CclItem>, chars: seq<int>, k: int, csize: int, lastchar: int)
    requires 0 <= k < |chars| && Gathered(m, items + [Expr(chars[..k])], csize, false, lastchar)
             && 0 <= chars[k] < csize
    ensures Gathered(With(m, chars[k]), items + [Expr(chars[..k + 1])], csize, false, lastchar)
  {
    var more, some := items + [Expr(chars[..k + 1])], items + [Expr(chars[..k])];
    forall c ensures InItems(more, c) <==> InItems(some, c) || c == chars[k] {
      assert chars[..k + 1] == chars[..k] + [chars[k]];
      LastItem(items, Expr(chars[..k + 1]), c);
      LastItem(items, Expr(chars[..k]), c);
    }
  }

  lemma LastItem(items: seq<CclItem>, it: CclItem, c: int)
    ensures InItems(items + [it], c) <==> InItems(items, c) || InItem(it, c)
  {
    if InItems(items, c) {
      var k :| 0 <= k < |items| && InItem(items[k], c);
      assert (items + [it])[k] == items[k];
    }
    if InItem(it, c) { assert (items + [it])[|items|] == it; }
  }

  /** The ccl productions: all items are entered, and the flag tells whether they came in ascending order. */
  method AddItems(ccls: CclTable, ccl: int, items: seq<CclItem>, csize: int)
    returns (r: Result<bool>, syntaxerror: bool)
    requires ccls.Valid() && 1 <= ccl == ccls.lastccl && csize <= CSIZE && ccls.Members(ccl) == []
    requires forall k :: 0 <= k < |items| ==> ProperItem(items[k])
    modifies ccls`ccllen, ccls`ccltbl, ccls.ccltbl
    ensures ccls.Valid() && (ccls.ccltbl == old(ccls.ccltbl) || fresh(ccls.ccltbl))
    ensures r.Failure? ==> r.error == BadCharacter && !HeldItems(items, csize)
    ensures r.Success? ==> HeldItems(items, csize)
    ensures InfoBelow(ccls, ccl - 1) == old(InfoBelow(ccls, ccl - 1))
    ensures r.Success? ==> exists lastchar :: Gathered(ccls.Members(ccl), items, csize, r.value, lastchar)
    ensures r.Success? ==> syntaxerror == BadItems(items)
  {
    hide Gathered, Ranged, Layout, Segment, BadItems;
    var cclsorted, lastchar := true, 0;
    syntaxerror := false;
    GatheredNone(csize);
    var k := 0;
    while k < |items|
      invariant 0 <= k <= |items| && syntaxerror == BadItems(items[..k])
      invariant forall j :: 0 <= j < k ==> HeldItem(items[j], csize)
      invariant ccls.Valid() && (ccls.ccltbl == old(ccls.ccltbl) || fresh(ccls.ccltbl))
      invariant InfoBelow(ccls, ccl - 1) == old(InfoBelow(ccls, ccl - 1))
      invariant Gathered(ccls.Members(ccl), items[..k], csize, cclsorted, lastchar)
    {
      ghost var m := ccls.Members(ccl);
      assert ProperItem(items[k]);
      assert items[..k + 1] == items[..k] + [items[k]];
      BadMore(items[..k], items[k]);
      match items[k] {
        case One(c) =>
          var _ :- AddRange(ccls, ccl, c, c, csize, items[..k], cclsorted, lastchar);
          RangeItem(m, ccls.Members(ccl), items[..k], items[k], csize, cclsorted, lastchar, c, c);
          cclsorted := cclsorted && c > lastchar;
          lastchar := c;
        case Span(lo, hi) =>
          if lo > hi {
            syntaxerror := true;
            NoRange(m, items[..k], lo, hi, csize, cclsorted, lastchar);
          } else {
            var _ :- AddRange(ccls, ccl, lo, hi, csize, items[..k], cclsorted, lastchar);
            RangeItem(m, ccls.Members(ccl), items[..k], items[k], csize, cclsorted, lastchar, lo, hi);
            cclsorted := cclsorted && lo > lastchar;
            lastchar := hi;
          }
        case Expr(chars) =>
          var _ :- AddExpr(ccls, ccl, chars, csize, items[..k], cclsorted, lastchar);
          cclsorted := false;
      }
      k := k + 1;
    }
    assert items[..k] == items;
    r := Success(cclsorted);
  }

  lemma GatheredNone(csize: int)
    ensures Gathered([], [], csize, true, 0) && !BadItems([])
  {}

  lemma BadMore(items: seq<CclItem>, it: CclItem)
    ensures BadItems(items + [it]) <==> BadItems(items) || BadItem(it)
  {
    if BadItems(items) {
      var k :| 0 <= k < |items| && BadItem(items[k]);
      assert (items + [it])[k] == items[k];
    }
    if BadItem(it) { assert (items + [it])[|items|] == it; }
  }

  lemma RangeItem(m: seq<int>, m': seq<int>, items: seq<CclItem>, it: CclItem, csize: int, sorted: bool, lastchar: int,
                  lo: int, hi: int)
    requires Gathered(m, items, csize, sorted, lastchar) && 0 <= lo <= hi
             && (it == Span(lo, hi) || (it == One(lo) && lo == hi))
    requires Ranged(m, m', lo, hi + 1, csize, sorted && lo > lastchar, lastchar)
    ensures Gathered(m', items + [it], csize, sorted && lo > lastchar, hi)
  {
    GatheredMore(m, m', items, it, csize, sorted, sorted && lo > lastchar, lastchar, hi);
  }

  lemma NoRange(m: seq<int>, items: seq<CclItem>, lo: int, hi: int, csize: int, sorted: bool, lastchar: int)
    requires Gathered(m, items, csize, sorted, lastchar) && lo > hi
    ensures Gathered(m, items + [Span(lo, hi)], csize, sorted, lastchar)
  {
    GatheredMore(m, m, items, Span(lo, hi), csize, sorted, sorted, lastchar, lastchar);
  }

  /** ccl and fullccl without the partition: a new class with the characters asked for, in order. */
  method GatherClass(ccls: CclTable, items: seq<CclItem>, negated: bool, csize: nat) returns (r: Result<int>, bad: bool)
    requires ccls.Valid() && 0 < csize <= CSIZE && Proper(Class(items, negated))
    modifies ccls, ccls.ccltbl
    ensures ccls.Valid() && (ccls.ccltbl == old(ccls.ccltbl) || fresh(ccls.ccltbl))
    ensures r.Failure? ==> r.error == BadCharacter && !HeldItems(items, csize)
    ensures r.Success? ==> HeldItems(items, csize)
    ensures r.Success? ==> r.value == ccls.lastccl == old(ccls.lastccl) + 1
                           && InfoBelow(ccls, r.value - 1) == old(Classes(ccls))
    ensures r.Success? ==> ClassStored(ccls.Members(r.value), csize) && (ccls.cclng[r.value] != 0) == negated
    ensures r.Success? ==> forall c :: c in ccls.Members(r.value) <==> InItems(items, c)
    ensures r.Success? ==> bad == BadItems(items) == exists k :: 0 <= k < |items| && EmptyRange(items[k])
  {
    hide Layout, Segment, ClassStored, Gathered, Ordered, BadItems, HeldItems, EmptyRange;
    BadItemsMean(items);
    ghost var before := Classes(ccls);
    var ccl := ccls.CclInit();
    assert InfoBelow(ccls, ccl - 1) == before;
    var sorted;
    sorted, bad := AddItems(ccls, ccl, items, csize);
    if sorted.Failure? { return Failure(sorted.error), bad; }
    ghost var lastchar :| Gathered(ccls.Members(ccl), items, csize, sorted.value, lastchar);
    ghost var m := ccls.Members(ccl);
    GatheredFacts(m, items, csize, sorted.value, lastchar);
    if negated {
      ccls.CclNegate(ccl);
      assert InfoBelow(ccls, ccl - 1) == before;
    }
    if !sorted.value { SortClass(ccls, ccl); }
    Stored(m, ccls.Members(ccl), items, csize, sorted.value, lastchar);
    return Success(ccl), bad;
  }

  // ----- what is compiled, and what is not

  /** Flex gives up: the NFA has no room for all the states of the pattern, or a character is outside the set. */
  ghost predicate Refused(e: Error, last: int, re: Re, csize: int) {
    (e == TooManyStates && last + States(re) > MOST_STATES) || (e == BadCharacter && !Held(re, csize))
  }

  /** Machine m, behind the first last states, has the states that the pattern takes. */
  ghost predicate Counted(last: int, after: Arrays, m: int, re: Re, csize: int) {
    Held(re, csize) && after.net.last == last + States(re) && EndOf(after, m) == End(re)
  }

  lemma SymbolRefused(e: Error, last: int, re: Re, sym: int, csize: int)
    requires re.Char? || re.Any? || re.Class?
    requires (e == TooManyStates && last == MOST_STATES) || (e == BadCharacter && csize <= sym < SYM_EPSILON)
    requires if re.Char? then sym == re.c else sym < csize
    ensures Refused(e, last, re, csize)
  {}

  lemma SymbolCounted(a: Arrays, b: Arrays, re: Re, sym: int, csize: int)
    requires re.Char? || re.Any? || (re.Class? && HeldItems(re.items, csize))
    requires StateMade(a, b, sym) && sym < csize && sym != SYM_EPSILON && (re.Char? ==> sym == re.c)
    ensures Counted(a.net.last, b, b.net.last, re, csize)
  {
    StateMachine(a, b, sym);
  }

  lemma ItemsRefused(last: int, re: Re, csize: int)
    requires re.Class? && !HeldItems(re.items, csize)
    ensures Refused(BadCharacter, last, re, csize)
  {}

  lemma StrCounts(chars: seq<int>, csize: int)
    ensures States(Str(chars)) == 1 + |chars| && End(Str(chars)) == if chars == [] then Open else Letter
    ensures Held(Str(chars), csize) <==> forall k :: 0 <= k < |chars| ==> chars[k] < csize
  {}

  /** A postfix operator adds its states to those of its operand. */
  lemma WrapCounts(re: Re, sub: Re, csize: int)
    requires IsWrap(re, sub)
    ensures States(re) == States(sub) + WrapStates(re, States(sub), End(sub)) && End(re) == WrapEnd(re, End(sub))
    ensures Held(re, csize) <==> Held(sub, csize)
  {}

  lemma OperandRefused(e: Error, last: int, re: Re, sub: Re, csize: int)
    requires IsWrap(re, sub) && Refused(e, last, sub, csize)
    ensures Refused(e, last, re, csize)
  {
    WrapCounts(re, sub, csize);
  }

  lemma WrapRefused(last: int, b: Arrays, x: int, re: Re, sub: Re, csize: int)
    requires IsWrap(re, sub) && Counted(last, b, x, sub, csize)
    requires b.net.last + WrapStates(re, States(sub), End(sub)) > MOST_STATES
    ensures Refused(TooManyStates, last, re, csize)
  {
    WrapCounts(re, sub, csize);
  }

  lemma WrapCounted(last: int, b: Arrays, x: int, c: Arrays, y: int, re: Re, sub: Re, csize: int)
    requires IsWrap(re, sub) && Counted(last, b, x, sub, csize)
    requires c.net.last == b.net.last + WrapStates(re, States(sub), End(sub)) && EndOf(c, y) == WrapEnd(re, End(sub))
    ensures Counted(last, c, y, re, csize)
  {
    WrapCounts(re, sub, csize);
  }

  /** The states that are made to join two machines. */
  function JoinStates(re: Re): nat {
    if re.Alt? then OrStates(End(re.left), End(re.right)) else 0
  }

  lemma JoinIs(first: Re, second: Re, re: Re)
    requires re == Seq(first, second) || re == Alt(first, second)
    ensures JoinStates(re) == if re.Alt? then OrStates(End(first), End(second)) else 0
  {}

  lemma CountedFacts(last: int, b: Arrays, x: int, re: Re, csize: int)
    requires Counted(last, b, x, re, csize)
    ensures b.net.last == last + States(re) && EndOf(b, x) == End(re)
  {}

  lemma FirstRefused(e: Error, last: int, first: Re, second: Re, re: Re, csize: int)
    requires Refused(e, last, first, csize) && (re == Seq(first, second) || re == Alt(first, second))
    ensures Refused(e, last, re, csize)
  {}

  lemma SecondRefused(e: Error, last: int, b: Arrays, x: int, first: Re, second: Re, re: Re, csize: int)
    requires Counted(last, b, x, first, csize) && Refused(e, b.net.last, second, csize)
    requires re == Seq(first, second) || re == Alt(first, second)
    ensures Refused(e, last, re, csize)
  {}

  lemma JoinRefused(last: int, b: Arrays, x: int, c: Arrays, y: int, first: Re, second: Re, re: Re, csize: int)
    requires Counted(last, b, x, first, csize) && Counted(b.net.last, c, y, second, csize) && re == Alt(first, second)
    requires c.net.last + JoinStates(re) > MOST_STATES
    ensures Refused(TooManyStates, last, re, csize)
  {}

  lemma JoinCounted(last: int, b: Arrays, x: int, c: Arrays, y: int, d: Arrays, m: int, first: Re, second: Re, re: Re,
                    csize: int)
    requires Counted(last, b, x, first, csize) && Counted(b.net.last, c, y, second, csize)
    requires re == Seq(first, second) || re == Alt(first, second)
    requires d.net.last == c.net.last + JoinStates(re) && EndOf(d, m) == if re.Alt? then Open else EndOf(c, y)
    ensures Counted(last, d, m, re, csize)
  {}

  // ----- entering a class

  /** What NewClass leaves: one more class, with the members and the sign asked for. */
  ghost predicate ClassEntered(before: seq<ClassInfo>, after: seq<ClassInfo>, items: seq<CclItem>, negated: bool) {
    && |after| == |before| + 1 && before <= after && after[|before|].negated == negated
    && forall c :: c in after[|before|].members <==> InItems(items, c)
  }

  class PatternCompiler {
    const nfa: NfaBuilder
    var madeany: bool
    var anyccl: int
    var syntaxerror: bool

    ghost const Repr: set<object> := {this, nfa, nfa.nextecm, nfa.ecgroup, nfa.cclflags, nfa.ccls}

    ghost predicate Valid()
      reads Repr, nfa.ccls.ccltbl
    {
      && nfa.Valid()
      && (madeany ==> IsAny(Classes(nfa.ccls), anyccl))
    }

    constructor (nfa: NfaBuilder)
      requires nfa.Valid()
      ensures Valid() && this.nfa == nfa && !syntaxerror
    {
      this.nfa := nfa;
      madeany, anyccl, syntaxerror := false, 0, false;
    }

    /** The new class splits the lists of the partition. */
    method SplitBy(ccl: int)
      requires nfa.Sizes() && nfa.Separate() && nfa.ccls.Valid() && 1 <= ccl == nfa.ccls.lastccl
      requires Ecs.WellLinked(nfa.nextecm[..], nfa.ecgroup[..], nfa.csize)
      requires forall q :: 0 <= q < nfa.cclflags.Length ==> nfa.cclflags[q] == 0
      requires ClassesOk(nfa.ccls.ccltbl[..], nfa.ccls.cclmap, nfa.ccls.ccllen, ccl - 1, nfa.ecgroup[..], nfa.csize)
      requires CharsApart(nfa.transchar, nfa.lastnfa, ccl - 1, nfa.ecgroup[..], nfa.csize)
      requires ClassStored(nfa.ccls.Members(ccl), nfa.csize)
      modifies nfa.nextecm, nfa.ecgroup, nfa.cclflags
      ensures nfa.Valid() && Classes(nfa.ccls) == old(Classes(nfa.ccls))
      ensures Ecs.RefinedBy(old(nfa.ecgroup[..]), nfa.ecgroup[..], nfa.csize,
                            Ecs.Mapped(nfa.ccls.Members(ccl), nfa.csize))
    {
      hide Ecs.WellLinked, ClassesOk, CharsApart, Ecs.RefinedBy, Ecs.SameOutside, Ecs.ClassOk,
           Layout, Segment, Whole, ClassStored;
      var ccls := nfa.ccls;
      ghost var bck, c := nfa.ecgroup[..], Ecs.Mapped(ccls.Members(ccl), nfa.csize);
      SegmentAt(ccls.ccltbl[..], ccls.cclmap, ccls.ccllen, ccls.lastccl, ccl);
      StoredFacts(ccls.Members(ccl), nfa.csize);
      Ecs.MkEccl(ccls.ccltbl[ccls.cclmap[ccl]..ccls.cclmap[ccl] + ccls.ccllen[ccl]], nfa.nextecm,
          nfa.ecgroup, nfa.csize, nfa.csize, nfa.cclflags);
      ClassesRefined(ccls.ccltbl[..], ccls.cclmap, ccls.ccllen, ccl - 1, bck, nfa.ecgroup[..], nfa.csize, c);
      CharsRefined(nfa.transchar, nfa.lastnfa, ccl - 1, bck, nfa.ecgroup[..], nfa.csize, c);
      WholeRefined(bck, nfa.ecgroup[..], nfa.csize, c, []);
      OneClassMore(ccls.ccltbl[..], ccls.cclmap, ccls.ccllen, ccl, nfa.ecgroup[..], nfa.csize,
          nfa.transchar, nfa.lastnfa);
    }

    lemma StoredFacts(m: seq<int>, csize: nat)
      requires ClassStored(m, csize)
      ensures |m| <= CSIZE && Ecs.ClassOk(Ecs.Mapped(m, csize), csize)
    {}

    lemma OneClassMore(ccltbl: seq<int>, cclmap: seq<int>, ccllen: seq<int>, ccl: int, bck: seq<int>, csize: nat,
                       tc: seq<int>, last: int)
      requires ClassesOk(ccltbl, cclmap, ccllen, ccl - 1, bck, csize) && Layout(cclmap, ccllen, ccl, |ccltbl|)
               && 1 <= ccl
      requires ClassStored(Segment(ccltbl, cclmap, ccllen, ccl), csize)
               && Whole(bck, csize, Ecs.Mapped(Segment(ccltbl, cclmap, ccllen, ccl), csize))
      requires CharsApart(tc, last, ccl - 1, bck, csize)
      ensures ClassesOk(ccltbl, cclmap, ccllen, ccl, bck, csize) && CharsApart(tc, last, ccl, bck, csize)
    {}

    /** The actions for ccl and fullccl: the class is gathered, put in order and splits the partition. */
    method NewClass(items: seq<CclItem>, negated: bool) returns (r: Result<int>)
      requires Valid() && Proper(Class(items, negated))
      modifies this`syntaxerror, nfa.ccls, nfa.ccls.ccltbl, nfa.nextecm, nfa.ecgroup, nfa.cclflags
      ensures nfa.ccls.ccltbl == old(nfa.ccls.ccltbl) || fresh(nfa.ccls.ccltbl)
      ensures r.Failure? ==> r.error == BadCharacter && !HeldItems(items, nfa.csize)
      ensures r.Success? ==> HeldItems(items, nfa.csize)
      ensures r.Success? ==> Valid() && r.value == nfa.ccls.lastccl == |Classes(nfa.ccls)|
      ensures r.Success? ==> ClassEntered(old(Classes(nfa.ccls)), Classes(nfa.ccls), items, negated)
      ensures r.Success? ==> syntaxerror == (old(syntaxerror) || BadItems(items))
      ensures r.Success? ==> Divided(old(nfa.ecgroup[..]), nfa.ecgroup[..], nfa.csize, Class(items, negated))
    {
      hide Ecs.WellLinked, ClassesOk, CharsApart, Layout, Segment, Whole, ClassStored, Gathered,
           IsAny, ClassEntered, Ordered, BadItems, Ecs.RefinedBy, Divided, HeldItems;
      var ccls := nfa.ccls;
      ghost var before, t0, m0, l0 := Classes(ccls), ccls.ccltbl[..], ccls.cclmap, ccls.ccllen;
      var gathered, bad := GatherClass(ccls, items, negated, nfa.csize);
      if bad { syntaxerror := true; }
      var ccl :- gathered;
      InfoSame(ccls, before, t0, m0, l0, ccl, nfa.ecgroup[..], nfa.csize);
      ghost var bck := nfa.ecgroup[..];
      SplitBy(ccl);
      ClassDivided(bck, nfa.ecgroup[..], nfa.csize, ccls.Members(ccl), items, negated);
      Entered(before, Classes(ccls), items, negated);
      AnyStays(before, Classes(ccls), anyccl);
      return Success(ccl);
    }

    /** The class behind '.', made when it is first needed. */
    method AnyClass() returns (ccl: int)
      requires Valid()
      modifies this`madeany, this`anyccl, nfa.ccls, nfa.ccls.ccltbl, nfa.nextecm, nfa.ecgroup, nfa.cclflags
      ensures nfa.ccls.ccltbl == old(nfa.ccls.ccltbl) || fresh(nfa.ccls.ccltbl)
      ensures Valid() && madeany && ccl == anyccl && old(Classes(nfa.ccls)) <= Classes(nfa.ccls)
      ensures StillInhabited(old(Classes(nfa.ccls)), Classes(nfa.ccls), Any, nfa.csize)
      ensures Divided(old(nfa.ecgroup[..]), nfa.ecgroup[..], nfa.csize, Any)
    {
      hide Ecs.WellLinked, ClassesOk, CharsApart, Layout, Segment, Whole, ClassStored, Gathered, IsAny, NoneEmpty,
           Divided;
      if !madeany {
        anyccl := NewlineClass();
        madeany := true;
      } else {
        AnyBefore(anyccl);
      }
      return anyccl;
    }

    /** The class behind '.' has divided the lists when it was made. */
    lemma AnyBefore(ccl: int)
      requires nfa.Valid() && IsAny(Classes(nfa.ccls), ccl)
      ensures Divided(nfa.ecgroup[..], nfa.ecgroup[..], nfa.csize, Any)
    {
      hide Divided, Whole, ClassStored, Ecs.WellLinked, CharsApart;
      var ccls := nfa.ccls;
      assert ClassOkAt(ccls.ccltbl[..], ccls.cclmap, ccls.ccllen, ccl, nfa.ecgroup[..], nfa.csize);
      forall c ensures c in ccls.Members(ccl) <==> c == 10 { Newline(c); }
      AlreadyDivided(nfa.ecgroup[..], nfa.csize, ccls.Members(ccl), Any);
    }

    method NewlineClass() returns (ccl: int)
      requires Valid() && !madeany
      modifies nfa.ccls, nfa.ccls.ccltbl, nfa.nextecm, nfa.ecgroup, nfa.cclflags
      ensures nfa.ccls.ccltbl == old(nfa.ccls.ccltbl) || fresh(nfa.ccls.ccltbl)
      ensures nfa.Valid() && IsAny(Classes(nfa.ccls), ccl) && old(Classes(nfa.ccls)) <= Classes(nfa.ccls)
      ensures StillInhabited(old(Classes(nfa.ccls)), Classes(nfa.ccls), Any, nfa.csize)
      ensures Divided(old(nfa.ecgroup[..]), nfa.ecgroup[..], nfa.csize, Any)
    {
      hide Ecs.WellLinked, ClassesOk, CharsApart, Layout, Segment, Whole, ClassStored, Gathered, IsAny, Divided,
           Ecs.RefinedBy;
      var ccls := nfa.ccls;
      ghost var before, t0, m0, l0 := Classes(ccls), ccls.ccltbl[..], ccls.cclmap, ccls.ccllen;
      ccl := ccls.CclInit();
      assert InfoBelow(ccls, ccl - 1) == before;
      var added := ccls.CclAdd(ccl, 10, nfa.csize);
      assert added.Success? && ccls.Members(ccl) == [10];
      assert InfoBelow(ccls, ccl - 1) == before;
      ccls.CclNegate(ccl);
      assert InfoBelow(ccls, ccl - 1) == before;
      NewlineStored(nfa.csize);
      InfoSame(ccls, before, t0, m0, l0, ccl, nfa.ecgroup[..], nfa.csize);
      ghost var bck := nfa.ecgroup[..];
      SplitBy(ccl);
      AnyDivided(bck, nfa.ecgroup[..], nfa.csize);
      NewlineAny(before, Classes(ccls), ccl, nfa.csize);
    }

    // ----- patterns

    /** The labels on the states are characters or classes that exist. */
    lemma LabelsKnown(m: int)
      requires nfa.Valid()
      ensures Labelled(Accepts(nfa.State().net, At(nfa.State(), m)), |Classes(nfa.ccls)|)
    {
      var n := nfa.State().net;
      WordsLabelled(n, At(nfa.State(), m).start, At(nfa.State(), m).final, nfa.ccls.lastccl);
    }

    lemma SymbolCompiled(a: Arrays, sym: int, re: Re)
      requires nfa.Valid() && StateMade(a, nfa.State(), sym) && sym != SYM_EPSILON
      requires (iset c | Matches(sym, c, Classes(nfa.ccls), nfa.csize) :: [c]) == Denotes(re, nfa.csize)
      ensures Compiled(a, nfa.State(), nfa.lastnfa, Classes(nfa.ccls), Symbol(sym), re, nfa.csize)
    {
      StateMachine(a, nfa.State(), sym);
      LabelsKnown(nfa.lastnfa);
      ReadSymbol(sym, Classes(nfa.ccls), nfa.csize);
    }

    /** A character that a state reads is one of the set. */
    lemma CharSplit(a: Arrays, c: int)
      requires nfa.Valid() && StateMade(a, nfa.State(), c) && 0 <= c <= CSIZE
      ensures c < nfa.csize
    {
      nfa.LabelUsable(nfa.lastnfa);
    }

    lemma NotSplit(before: seq<int>, after: seq<int>, sym: int, csize: int)
      requires SplitOff(before, after, sym, csize) && (sym < 0 || sym >= csize)
      ensures after == before
    {}

    lemma CharCompiled(a: Arrays, c: int)
      requires nfa.Valid() && StateMade(a, nfa.State(), c) && 0 <= c <= CSIZE
      ensures Compiled(a, nfa.State(), nfa.lastnfa, Classes(nfa.ccls), Symbol(c), Char(c), nfa.csize)
    {
      nfa.LabelUsable(nfa.lastnfa);
      SymbolCompiled(a, c, Char(c));
    }

    lemma AnyCompiled(a: Arrays, ccl: int)
      requires nfa.Valid() && StateMade(a, nfa.State(), -ccl) && IsAny(Classes(nfa.ccls), ccl)
      ensures Compiled(a, nfa.State(), nfa.lastnfa, Classes(nfa.ccls), Symbol(-ccl), Any, nfa.csize)
    {
      AnyMeans(Classes(nfa.ccls), ccl, nfa.csize);
      SymbolCompiled(a, -ccl, Any);
    }

    lemma ClassCompiled(a: Arrays, before: seq<ClassInfo>, items: seq<CclItem>, negated: bool)
      requires nfa.Valid() && StateMade(a, nfa.State(), -nfa.ccls.lastccl)
               && ClassEntered(before, Classes(nfa.ccls), items, negated)
      ensures Compiled(a, nfa.State(), nfa.lastnfa, Classes(nfa.ccls), Symbol(-nfa.ccls.lastccl),
              Class(items, negated), nfa.csize)
    {
      ClassMeans(before, Classes(nfa.ccls), items, negated, nfa.csize);
      SymbolCompiled(a, -nfa.ccls.lastccl, Class(items, negated));
    }

    /** A character, '.' or a character class: a single state. */
    method CompileSymbol(re: Re) returns (r: Result<int>, ghost l: Lang)
      requires Valid() && Proper(re) && (re.Char? || re.Any? || re.Class?)
      modifies Repr, nfa.ccls.ccltbl
      ensures nfa.ccls.ccltbl == old(nfa.ccls.ccltbl) || fresh(nfa.ccls.ccltbl)
      ensures r.Failure? ==> Refused(r.error, old(nfa.lastnfa), re, nfa.csize)
      ensures r.Success? ==> Counted(old(nfa.lastnfa), nfa.State(), r.value, re, nfa.csize)
      ensures r.Success? ==> Valid() && old(Classes(nfa.ccls)) <= Classes(nfa.ccls)
      ensures r.Success? ==> Compiled(old(nfa.State()), nfa.State(), r.value, Classes(nfa.ccls), l, re, nfa.csize)
      ensures r.Success? ==> StillInhabited(old(Classes(nfa.ccls)), Classes(nfa.ccls), re, nfa.csize)
      ensures r.Success? ==> Divided(old(nfa.ecgroup[..]), nfa.ecgroup[..], nfa.csize, re)
      ensures r.Success? ==> syntaxerror == (old(syntaxerror) || !WellFormed(re))
    {
      hide *;
      ghost var a, cls, bck := nfa.State(), Classes(nfa.ccls), nfa.ecgroup[..];
      ReprIs();
      SymbolParts(re);
      nfa.LastIs();
      Known();
      l := UNIT;
      match re {
        case Char(c) =>
          r := nfa.MkState(c);
          SameInhabited(cls, re, nfa.csize);
          if r.Failure? {
            SymbolRefused(r.error, a.net.last, re, c, nfa.csize);
          } else {
            nfa.LastIs();
            SymbolCounted(a, nfa.State(), re, c, nfa.csize);
            StillValid();
            l := CharRead(a, cls, bck, c);
          }
        case Any =>
          var ccl := AnyClass();
          Known();
          AnyLabel(Classes(nfa.ccls), ccl);
          ghost var parts := nfa.ecgroup[..];
          r := nfa.MkState(-ccl);
          if r.Failure? {
            SymbolRefused(r.error, a.net.last, re, -ccl, nfa.csize);
          } else {
            nfa.LastIs();
            SymbolCounted(a, nfa.State(), re, -ccl, nfa.csize);
            StillValid();
            l := AnyRead(a, parts, ccl);
          }
        case Class(items, negated) =>
          var made := NewClass(items, negated);
          if made.Failure? {
            ItemsRefused(a.net.last, re, nfa.csize);
            return Failure(made.error), l;
          }
          var ccl := made.value;
          Known();
          EnteredLabel(cls, Classes(nfa.ccls), items, negated);
          EnteredInhabited(cls, Classes(nfa.ccls), items, negated, nfa.csize);
          ghost var parts := nfa.ecgroup[..];
          r := nfa.MkState(-ccl);
          if r.Failure? {
            SymbolRefused(r.error, a.net.last, re, -ccl, nfa.csize);
          } else {
            nfa.LastIs();
            SymbolCounted(a, nfa.State(), re, -ccl, nfa.csize);
            StillValid();
            l := ClassRead(a, parts, cls, items, negated);
          }
      }
    }

    lemma CharRead(a: Arrays, cls: seq<ClassInfo>, bck: seq<int>, c: int) returns (l: Lang)
      requires Valid() && StateMade(a, nfa.State(), c) && 0 <= c <= CSIZE
      requires SplitOff(bck, nfa.ecgroup[..], c, nfa.csize)
      ensures Compiled(a, nfa.State(), nfa.lastnfa, Classes(nfa.ccls), l, Char(c), nfa.csize)
      ensures Divided(bck, nfa.ecgroup[..], nfa.csize, Char(c))
    {
      hide NfaBuilder.CharsOk, StateMade, IsAny, Compiled, Symbol, Divided, SplitOff;
      l := Symbol(c);
      CharCompiled(a, c);
      CharSplit(a, c);
      CharDivided(bck, nfa.ecgroup[..], nfa.csize, c);
    }

    lemma AnyRead(a: Arrays, parts: seq<int>, ccl: int) returns (l: Lang)
      requires Valid() && StateMade(a, nfa.State(), -ccl) && IsAny(Classes(nfa.ccls), ccl)
      requires SplitOff(parts, nfa.ecgroup[..], -ccl, nfa.csize)
      ensures Compiled(a, nfa.State(), nfa.lastnfa, Classes(nfa.ccls), l, Any, nfa.csize)
      ensures nfa.ecgroup[..] == parts
    {
      hide NfaBuilder.CharsOk, StateMade, Compiled, Symbol, SplitOff;
      l := Symbol(-ccl);
      AnyCompiled(a, ccl);
      NotSplit(parts, nfa.ecgroup[..], -ccl, nfa.csize);
    }

    lemma ClassRead(a: Arrays, parts: seq<int>, before: seq<ClassInfo>, items: seq<CclItem>, negated: bool)
      returns (l: Lang)
      requires Valid() && StateMade(a, nfa.State(), -nfa.ccls.lastccl)
               && ClassEntered(before, Classes(nfa.ccls), items, negated)
      requires SplitOff(parts, nfa.ecgroup[..], -nfa.ccls.lastccl, nfa.csize) && nfa.ccls.lastccl >= 1
      ensures Compiled(a, nfa.State(), nfa.lastnfa, Classes(nfa.ccls), l, Class(items, negated), nfa.csize)
      ensures nfa.ecgroup[..] == parts
    {
      hide NfaBuilder.CharsOk, StateMade, ClassEntered, Compiled, Symbol, SplitOff, IsAny;
      l := Symbol(-nfa.ccls.lastccl);
      ClassCompiled(a, before, items, negated);
      NotSplit(parts, nfa.ecgroup[..], -nfa.ccls.lastccl, nfa.csize);
    }

    lemma SymbolParts(re: Re)
      requires Valid() && Proper(re)
      ensures re.Char? ==> 0 <= re.c <= CSIZE
      ensures re.Class? ==> (WellFormed(re) <==> !BadItems(re.items))
      ensures re.Char? || re.Any? ==> WellFormed(re)
      ensures CSIZE == 256 && SYM_EPSILON == 257 && nfa.csize > 0
    {
      hide NfaBuilder.CharsOk, IsAny;
    }

    lemma Known()
      requires Valid()
      ensures nfa.Valid() && |Classes(nfa.ccls)| == nfa.ccls.lastccl && (madeany ==> IsAny(Classes(nfa.ccls), anyccl))
      ensures nfa.ccls.ccltbl != nfa.nextecm && nfa.ccls.ccltbl != nfa.ecgroup && nfa.ccls.ccltbl != nfa.cclflags
    {
      hide NfaBuilder.CharsOk, IsAny;
    }

    lemma StillValid()
      requires nfa.Valid() && (madeany ==> IsAny(Classes(nfa.ccls), anyccl))
      ensures Valid()
    {
      hide NfaBuilder.Valid, IsAny;
    }

    /** The actions of the parser for the pattern re, bottom-up and from left to right. */
    method Compile(re: Re) returns (r: Result<int>, ghost l: Lang)
      requires Valid() && Proper(re)
      modifies Repr, nfa.ccls.ccltbl
      ensures nfa.ccls.ccltbl == old(nfa.ccls.ccltbl) || fresh(nfa.ccls.ccltbl)
      ensures r.Failure? ==> Refused(r.error, old(nfa.lastnfa), re, nfa.csize)
      ensures r.Success? ==> Counted(old(nfa.lastnfa), nfa.State(), r.value, re, nfa.csize)
      ensures r.Success? ==> Valid() && old(Classes(nfa.ccls)) <= Classes(nfa.ccls)
      ensures r.Success? ==> Compiled(old(nfa.State()), nfa.State(), r.value, Classes(nfa.ccls), l, re, nfa.csize)
      ensures r.Success? ==> StillInhabited(old(Classes(nfa.ccls)), Classes(nfa.ccls), re, nfa.csize)
      ensures r.Success? ==> Divided(old(nfa.ecgroup[..]), nfa.ecgroup[..], nfa.csize, re)
      ensures r.Success? ==> syntaxerror == (old(syntaxerror) || !WellFormed(re))
      decreases re, 1
    {
      hide *;
      ghost var a, cls0, b0 := nfa.State(), Classes(nfa.ccls), nfa.ecgroup[..];
      ReprIs();
      nfa.LastIs();
      ghost var nfa0 := nfa.lastnfa;
      ProperParts(re);
      l := UNIT;
      match re {
        case Str(chars) =>
          SameInhabited(cls0, re, nfa.csize);
          r, l := CompileStr(chars);
        case Seq(first, second) =>
          r, l := CompileBoth(first, second, re);
        case Alt(left, right) =>
          r, l := CompileBoth(left, right, re);
        case Char(_) | Any | Class(_, _) =>
          r, l := CompileSymbol(re);
        case Closure(_) | Positive(_) | Optional(_) | Iterate(_, _, _) | IterateFrom(_, _) | IterateExactly(_, _) =>
          var made, lx := Compile(re.re);
          if made.Failure? {
            OperandRefused(made.error, nfa0, re, re.re, nfa.csize);
            return Failure(made.error), l;
          }
          WrapInhabited(cls0, Classes(nfa.ccls), re.re, re, nfa.csize);
          WrapDivided(b0, nfa.ecgroup[..], nfa.csize, re.re, re);
          r, l := Wrap(re, re.re, made.value, lx, a);
      }
    }

    /** Two patterns, one behind the other or as alternatives. */
    method CompileBoth(first: Re, second: Re, re: Re) returns (r: Result<int>, ghost l: Lang)
      requires Valid() && Proper(first) && Proper(second) && (re == Seq(first, second) || re == Alt(first, second))
      modifies Repr, nfa.ccls.ccltbl
      ensures nfa.ccls.ccltbl == old(nfa.ccls.ccltbl) || fresh(nfa.ccls.ccltbl)
      ensures r.Failure? ==> Refused(r.error, old(nfa.lastnfa), re, nfa.csize)
      ensures r.Success? ==> Counted(old(nfa.lastnfa), nfa.State(), r.value, re, nfa.csize)
      ensures r.Success? ==> Valid() && old(Classes(nfa.ccls)) <= Classes(nfa.ccls)
      ensures r.Success? ==> Compiled(old(nfa.State()), nfa.State(), r.value, Classes(nfa.ccls), l, re, nfa.csize)
      ensures r.Success? ==> StillInhabited(old(Classes(nfa.ccls)), Classes(nfa.ccls), re, nfa.csize)
      ensures r.Success? ==> Divided(old(nfa.ecgroup[..]), nfa.ecgroup[..], nfa.csize, re)
      ensures r.Success? ==> syntaxerror == (old(syntaxerror) || !WellFormed(re))
      decreases re, 0
    {
      hide *;
      ghost var a, cls0, b0 := nfa.State(), Classes(nfa.ccls), nfa.ecgroup[..];
      ReprIs();
      nfa.LastIs();
      l := UNIT;
      var left, lx := Compile(first);
      if left.Failure? {
        FirstRefused(left.error, a.net.last, first, second, re, nfa.csize);
        return Failure(left.error), l;
      }
      nfa.LastIs();
      ghost var b, cls1, b1 := nfa.State(), Classes(nfa.ccls), nfa.ecgroup[..];
      var right, ly := Compile(second);
      if right.Failure? {
        SecondRefused(right.error, a.net.last, b, left.value, first, second, re, nfa.csize);
        return Failure(right.error), l;
      }
      nfa.LastIs();
      ghost var c := nfa.State();
      CountedFacts(a.net.last, b, left.value, first, nfa.csize);
      CountedFacts(b.net.last, c, right.value, second, nfa.csize);
      JoinIs(first, second, re);
      PartsDivided(b0, b1, nfa.ecgroup[..], nfa.csize, first, second, re);
      PartsInhabited(cls0, cls1, Classes(nfa.ccls), first, second, re, nfa.csize);
      if re.Seq? {
        l := Cat(lx, ly);
        var m := Concatenate(a, b, left.value, right.value, lx, ly, cls1, first, second);
        r := Success(m);
        nfa.LastIs();
        JoinCounted(a.net.last, b, left.value, c, right.value, nfa.State(), m, first, second, re, nfa.csize);
      } else {
        l := lx + ly;
        r := Alternate(a, b, left.value, right.value, lx, ly, cls1, first, second);
        nfa.LastIs();
        if r.Failure? {
          JoinRefused(a.net.last, b, left.value, c, right.value, first, second, re, nfa.csize);
        } else {
          JoinCounted(a.net.last, b, left.value, c, right.value, nfa.State(), r.value, first, second, re, nfa.csize);
        }
      }
    }

    lemma ReprIs()
      ensures Repr == {this, nfa, nfa.nextecm, nfa.ecgroup, nfa.cclflags, nfa.ccls}
    {}

    /** series: link_machines for two machines made one after the other. */
    method Concatenate(ghost a: Arrays, ghost b: Arrays, x: int, y: int, ghost lx: Lang, ghost ly: Lang,
                       ghost cls1: seq<ClassInfo>, ghost first: Re, ghost second: Re) returns (m: int)
      requires Valid() && cls1 <= Classes(nfa.ccls)
      requires Compiled(a, b, x, cls1, lx, first, nfa.csize)
               && Compiled(b, nfa.State(), y, Classes(nfa.ccls), ly, second, nfa.csize)
      modifies nfa
      ensures Valid() && Compiled(a, nfa.State(), m, Classes(nfa.ccls), Cat(lx, ly), Seq(first, second), nfa.csize)
      ensures Classes(nfa.ccls) == old(Classes(nfa.ccls))
      ensures nfa.lastnfa == old(nfa.lastnfa) && EndOf(nfa.State(), m) == old(EndOf(nfa.State(), y))
    {
      hide NfaBuilder.CharsOk, IsAny, Compiled, InfoBelow, Layout, Made, Cat, IsAt, EndOf;
      SeqParts(a, b, nfa.State(), x, y, lx, ly, cls1, Classes(nfa.ccls), first, second, nfa.csize);
      m := nfa.LinkBehind(a, b, x, y, a.net.last + 1, lx, ly);
      LabelsKnown(m);
      SeqCompiled(a, b, nfa.State(), m, lx, ly, cls1, Classes(nfa.ccls), first, second, nfa.csize);
    }

    /** re '|' series. */
    method Alternate(ghost a: Arrays, ghost b: Arrays, x: int, y: int, ghost lx: Lang, ghost ly: Lang,
                     ghost cls1: seq<ClassInfo>, ghost left: Re, ghost right: Re) returns (r: Result<int>)
      requires Valid() && cls1 <= Classes(nfa.ccls)
      requires Compiled(a, b, x, cls1, lx, left, nfa.csize)
               && Compiled(b, nfa.State(), y, Classes(nfa.ccls), ly, right, nfa.csize)
      modifies nfa, nfa.nextecm, nfa.ecgroup
      ensures r.Failure? ==> r.error == TooManyStates
                             && old(nfa.lastnfa) + OrStates(EndOf(b, x), old(EndOf(nfa.State(), y))) > MOST_STATES
      ensures r.Success? ==> nfa.lastnfa == old(nfa.lastnfa) + OrStates(EndOf(b, x), old(EndOf(nfa.State(), y)))
                             && EndOf(nfa.State(), r.value) == Open
      ensures r.Success? ==> nfa.ecgroup[..] == old(nfa.ecgroup[..])
      ensures r.Success?
              ==> Valid() && Compiled(a, nfa.State(), r.value, Classes(nfa.ccls), lx + ly, Alt(left, right), nfa.csize)
      ensures Classes(nfa.ccls) == old(Classes(nfa.ccls))
    {
      hide NfaBuilder.CharsOk, IsAny, Compiled, InfoBelow, Layout, Made, IsAt, EndOf;
      ghost var c := nfa.State();
      SeqParts(a, b, c, x, y, lx, ly, cls1, Classes(nfa.ccls), left, right, nfa.csize);
      r := nfa.MkOr(x, y);
      if r.Success? {
        LabelsKnown(r.value);
        AltCompiled(a, b, c, nfa.State(), x, y, r.value, lx, ly, cls1, Classes(nfa.ccls), left, right, nfa.csize);
      }
    }

    /** string: the characters are linked one by one behind an epsilon state. */
    method CompileStr(chars: seq<int>) returns (r: Result<int>, ghost l: Lang)
      requires Valid() && Proper(Str(chars))
      modifies nfa, nfa.nextecm, nfa.ecgroup
      ensures r.Failure? ==> Refused(r.error, old(nfa.lastnfa), Str(chars), nfa.csize)
      ensures r.Success? ==> Counted(old(nfa.lastnfa), nfa.State(), r.value, Str(chars), nfa.csize)
      ensures r.Success? ==> Valid()
      ensures r.Success?
              ==> Compiled(old(nfa.State()), nfa.State(), r.value, Classes(nfa.ccls), l, Str(chars), nfa.csize)
      ensures r.Success? ==> Divided(old(nfa.ecgroup[..]), nfa.ecgroup[..], nfa.csize, Str(chars))
      ensures Classes(nfa.ccls) == old(Classes(nfa.ccls))
    {
      hide NfaBuilder.Valid, NfaBuilder.CharsOk, IsAny, Compiled, InfoBelow, Divided, EndOf, Held, States, End;
      ghost var a, cls, bck := nfa.State(), Classes(nfa.ccls), nfa.ecgroup[..];
      l := UNIT;
      StrCounts(chars, nfa.csize);
      var m :- EmptyStr();
      var k := 0;
      while k < |chars|
        invariant 0 <= k <= |chars| && Valid() && Classes(nfa.ccls) == cls
        invariant forall j :: 0 <= j < k ==> chars[j] < nfa.csize
        invariant nfa.lastnfa == a.net.last + 1 + k && EndOf(nfa.State(), m) == if k == 0 then Open else Letter
        invariant Compiled(a, nfa.State(), m, cls, l, Str(chars[..k]), nfa.csize)
        invariant Divided(bck, nfa.ecgroup[..], nfa.csize, Str(chars[..k]))
      {
        m, l :- OneChar(chars, k, m, a, bck, l);
        k := k + 1;
      }
      assert chars[..k] == chars;
      r := Success(m);
    }

    /** string: the epsilon state in front. */
    method EmptyStr() returns (r: Result<int>)
      requires Valid()
      modifies nfa, nfa.nextecm, nfa.ecgroup
      ensures r.Failure? ==> r.error == TooManyStates && old(nfa.lastnfa) + 1 > MOST_STATES
      ensures r.Success? ==> Valid() && nfa.lastnfa == old(nfa.lastnfa) + 1 && EndOf(nfa.State(), r.value) == Open
      ensures r.Success?
              ==> Compiled(old(nfa.State()), nfa.State(), r.value, Classes(nfa.ccls), UNIT, Str([]), nfa.csize)
      ensures r.Success? ==> Divided(old(nfa.ecgroup[..]), nfa.ecgroup[..], nfa.csize, Str([]))
      ensures Classes(nfa.ccls) == old(Classes(nfa.ccls))
    {
      hide NfaBuilder.CharsOk, StateMade, IsAny, Compiled, InfoBelow, Layout, Made, Divided, SplitOff, EndOf;
      ghost var a, bck := nfa.State(), nfa.ecgroup[..];
      var m :- nfa.MkEpsilon();
      StateMachine(a, nfa.State(), SYM_EPSILON);
      LabelsKnown(m);
      StrStart(a, nfa.State(), m, Classes(nfa.ccls), nfa.csize);
      NotSplit(bck, nfa.ecgroup[..], SYM_EPSILON, nfa.csize);
      StrNone(bck, nfa.csize);
      return Success(m);
    }

    /** string: one more character. */
    method OneChar(chars: seq<int>, k: int, m: int, ghost a: Arrays, ghost bck: seq<int>, ghost l: Lang)
      returns (r: Result<int>, ghost l': Lang)
      requires Valid() && Proper(Str(chars)) && 0 <= k < |chars|
      requires Compiled(a, nfa.State(), m, Classes(nfa.ccls), l, Str(chars[..k]), nfa.csize)
      requires Divided(bck, nfa.ecgroup[..], nfa.csize, Str(chars[..k]))
      modifies nfa, nfa.nextecm, nfa.ecgroup
      ensures r.Failure? ==> (r.error == TooManyStates && old(nfa.lastnfa) + 1 > MOST_STATES)
                             || (r.error == BadCharacter && chars[k] >= nfa.csize)
      ensures r.Success? ==> nfa.lastnfa == old(nfa.lastnfa) + 1 && EndOf(nfa.State(), r.value) == Letter
                             && chars[k] < nfa.csize
      ensures r.Success?
              ==> Valid() && Compiled(a, nfa.State(), r.value, Classes(nfa.ccls), l', Str(chars[..k + 1]), nfa.csize)
      ensures r.Success? ==> Divided(bck, nfa.ecgroup[..], nfa.csize, Str(chars[..k + 1]))
      ensures Classes(nfa.ccls) == old(Classes(nfa.ccls))
    {
      hide NfaBuilder.CharsOk, StateMade, IsAny, Compiled, Symbol, InfoBelow, Layout, Made, Cat, Divided, SplitOff,
           EndOf;
      ghost var b, cls, parts, c := nfa.State(), Classes(nfa.ccls), nfa.ecgroup[..], chars[k];
      l' := Cat(l, Symbol(c));
      var s :- nfa.MkState(chars[k]);
      CharCompiled(b, c);
      StateMachine(b, nfa.State(), c);
      CharSplit(b, c);
      CharDivided(parts, nfa.ecgroup[..], nfa.csize, c);
      StrOneMore(bck, parts, nfa.ecgroup[..], nfa.csize, chars, k);
      var n := Concatenate(a, b, m, s, l, Symbol(c), cls, Str(chars[..k]), Char(c));
      StrStep(a, nfa.State(), n, cls, l', chars, k, nfa.csize);
      r := Success(n);
    }

    /** The postfix operators. */
    method Wrap(re: Re, ghost sub: Re, x: int, ghost lx: Lang, ghost a: Arrays) returns (r: Result<int>, ghost l: Lang)
      requires Valid() && IsWrap(re, sub) && Compiled(a, nfa.State(), x, Classes(nfa.ccls), lx, sub, nfa.csize)
      requires Counted(a.net.last, nfa.State(), x, sub, nfa.csize)
      modifies this`syntaxerror, nfa, nfa.nextecm, nfa.ecgroup
      ensures r.Failure? ==> Refused(r.error, a.net.last, re, nfa.csize)
      ensures r.Success? ==> Counted(a.net.last, nfa.State(), r.value, re, nfa.csize)
      ensures r.Success? ==> nfa.ecgroup[..] == old(nfa.ecgroup[..])
      ensures r.Success? ==> Valid() && Compiled(a, nfa.State(), r.value, Classes(nfa.ccls), l, re, nfa.csize)
      ensures r.Success? ==> syntaxerror == (old(syntaxerror) || BadWrap(re))
      ensures Classes(nfa.ccls) == old(Classes(nfa.ccls))
    {
      hide *;
      ghost var b := nfa.State();
      nfa.LastIs();
      WrapParts(a, b, x, Classes(nfa.ccls), lx, sub, nfa.csize);
      CountedFacts(a.net.last, b, x, sub, nfa.csize);
      l := Applied(re, lx);
      r := Operate(re, sub, x, a.net.last + 1, lx, States(sub), End(sub));
      nfa.LastIs();
      if r.Failure? {
        WrapRefused(a.net.last, b, x, re, sub, nfa.csize);
      } else {
        Known();
        LabelsKnown(r.value);
        WrapCounted(a.net.last, b, x, nfa.State(), r.value, re, sub, nfa.csize);
        WrapCompiled(a, b, nfa.State(), x, r.value, Classes(nfa.ccls), lx, sub, re, nfa.csize);
      }
    }

    /** The operator itself, for a machine with size states that ends in e. */
    method Operate(re: Re, ghost sub: Re, x: int, ghost lo: int, ghost lx: Lang, ghost size: nat, ghost e: Ending)
      returns (r: Result<int>)
      requires Valid() && IsWrap(re, sub) && nfa.lastnfa + 1 - lo == size && EndOf(nfa.State(), x) == e
      requires IsAt(nfa.State(), x) && nfa.lastst[x] == nfa.lastnfa && nfa.firstst[x] == lo
      requires Accepts(nfa.State().net, At(nfa.State(), x)) == lx
      modifies this`syntaxerror, nfa, nfa.nextecm, nfa.ecgroup
      ensures r.Failure? ==> r.error == TooManyStates && old(nfa.lastnfa) + WrapStates(re, size, e) > MOST_STATES
      ensures r.Success? ==> nfa.lastnfa == old(nfa.lastnfa) + WrapStates(re, size, e)
                             && EndOf(nfa.State(), r.value) == WrapEnd(re, e)
      ensures r.Success? ==> nfa.ecgroup[..] == old(nfa.ecgroup[..])
      ensures r.Success? ==> Valid() && Made(old(nfa.State()), nfa.State(), r.value, lo, Applied(re, lx))
      ensures r.Success? ==> syntaxerror == (old(syntaxerror) || BadWrap(re))
      ensures Classes(nfa.ccls) == old(Classes(nfa.ccls))
    {
      hide NfaBuilder.CharsOk, IsAny, InfoBelow, Layout, Made, IsAt, Applied, Star, Plus, EndOf, Accepts,
           FromToStates, ExactStates, RepStates;
      AppliedIs(re, sub, lx);
      match re {
        case Closure(_) => r := nfa.MkClos(x);
        case Positive(_) => r := nfa.MkPosCl(x);
        case Optional(_) => r := nfa.MkOpt(x);
        case Iterate(_, _, _) | IterateFrom(_, _) | IterateExactly(_, _) => r := Repeat(re, sub, x, lo, lx, size, e);
      }
    }

    /** The operators with numbers. */
    method Repeat(re: Re, ghost sub: Re, x: int, ghost lo: int, ghost lx: Lang, ghost size: nat, ghost e: Ending)
      returns (r: Result<int>)
      requires Valid() && IsWrap(re, sub) && (re.Iterate? || re.IterateFrom? || re.IterateExactly?)
      requires IsAt(nfa.State(), x) && nfa.lastst[x] == nfa.lastnfa && nfa.firstst[x] == lo
      requires Accepts(nfa.State().net, At(nfa.State(), x)) == lx
      requires nfa.lastnfa + 1 - lo == size && EndOf(nfa.State(), x) == e
      modifies this`syntaxerror, nfa, nfa.nextecm, nfa.ecgroup
      ensures r.Failure? ==> r.error == TooManyStates && old(nfa.lastnfa) + WrapStates(re, size, e) > MOST_STATES
      ensures r.Success? ==> nfa.lastnfa == old(nfa.lastnfa) + WrapStates(re, size, e)
                             && EndOf(nfa.State(), r.value) == WrapEnd(re, e)
      ensures r.Success? ==> nfa.ecgroup[..] == old(nfa.ecgroup[..])
      ensures r.Success? ==> Valid() && Made(old(nfa.State()), nfa.State(), r.value, lo, Applied(re, lx))
      ensures r.Success? ==> syntaxerror == (old(syntaxerror) || BadWrap(re))
      ensures Classes(nfa.ccls) == old(Classes(nfa.ccls))
    {
      hide *;
      RepeatParts(re, sub, lx, size, e);
      match re {
        case Iterate(_, lb, ub) =>
          r := FromTo(x, lb, ub, lo, lx, size, e);
        case IterateFrom(_, lb) =>
          r := AtLeastTimes(x, lb, lo, lx, size, e);
        case IterateExactly(_, n) =>
          r := Exactly(x, n, lo, lx, size, e);
      }
    }

    /** x{lb,} */
    method AtLeastTimes(x: int, lb: int, ghost lo: int, ghost lx: Lang, ghost size: nat, ghost e: Ending)
      returns (r: Result<int>)
      requires Valid()
      requires IsAt(nfa.State(), x) && nfa.lastst[x] == nfa.lastnfa && nfa.firstst[x] == lo
      requires Accepts(nfa.State().net, At(nfa.State(), x)) == lx
      requires nfa.lastnfa + 1 - lo == size && EndOf(nfa.State(), x) == e
      modifies this`syntaxerror, nfa, nfa.nextecm, nfa.ecgroup
      ensures r.Failure? ==> r.error == TooManyStates && old(nfa.lastnfa) + FromStates(size, e, lb) > MOST_STATES
      ensures r.Success? ==> nfa.lastnfa == old(nfa.lastnfa) + FromStates(size, e, lb)
                             && EndOf(nfa.State(), r.value) == if lb <= 0 then e else Open
      ensures r.Success? ==> nfa.ecgroup[..] == old(nfa.ecgroup[..])
      ensures r.Success? ==> Valid() && Made(old(nfa.State()), nfa.State(), r.value, lo,
                                             if lb <= 0 then lx else Repeated(lx, lb, INFINITY))
      ensures r.Success? ==> syntaxerror == (old(syntaxerror) || lb <= 0)
      ensures Classes(nfa.ccls) == old(Classes(nfa.ccls))
    {
      hide NfaBuilder.CharsOk, IsAny, InfoBelow, Layout, Made, IsAt, Repeated, Accepts, EndOf, RepStates, Extent;
      MachineFacts(nfa.State(), x);
      ExtentIs(nfa.State(), x);
      MadeSelf(nfa.State(), x);
      if lb <= 0 {
        syntaxerror := true;
        return Success(x);
      }
      r := nfa.MkRep(x, lb, INFINITY);
    }

    /** x{lb,ub} */
    method FromTo(x: int, lb: int, ub: int, ghost lo: int, ghost lx: Lang, ghost size: nat, ghost e: Ending)
      returns (r: Result<int>)
      requires Valid()
      requires IsAt(nfa.State(), x) && nfa.lastst[x] == nfa.lastnfa && nfa.firstst[x] == lo
      requires Accepts(nfa.State().net, At(nfa.State(), x)) == lx
      requires nfa.lastnfa + 1 - lo == size && EndOf(nfa.State(), x) == e
      modifies this`syntaxerror, nfa, nfa.nextecm, nfa.ecgroup
      ensures r.Failure? ==> r.error == TooManyStates && old(nfa.lastnfa) + FromToStates(size, e, lb, ub) > MOST_STATES
      ensures r.Success? ==> nfa.lastnfa == old(nfa.lastnfa) + FromToStates(size, e, lb, ub)
                             && EndOf(nfa.State(), r.value) == if BadIteration(lb, ub) then e else Open
      ensures r.Success? ==> nfa.ecgroup[..] == old(nfa.ecgroup[..])
      ensures r.Success? ==> Valid() && Made(old(nfa.State()), nfa.State(), r.value, lo,
                                             if BadIteration(lb, ub) then lx else Times(lx, lb, ub))
      ensures r.Success? ==> syntaxerror == (old(syntaxerror) || BadIteration(lb, ub))
      ensures Classes(nfa.ccls) == old(Classes(nfa.ccls))
    {
      hide NfaBuilder.CharsOk, IsAny, InfoBelow, Layout, Made, IsAt, Times, Accepts, EndOf, RepStates, Extent;
      MachineFacts(nfa.State(), x);
      ExtentIs(nfa.State(), x);
      MadeSelf(nfa.State(), x);
      if lb > ub || lb < 0 {
        syntaxerror := true;
      } else if lb == 0 {
        if ub <= 0 {
          syntaxerror := true;
        } else {
          r := OptRep(x, lo, lx, ub, size, e);
          return;
        }
      } else {
        r := nfa.MkRep(x, lb, ub);
        return;
      }
      return Success(x);
    }

    /** x{n} */
    method Exactly(x: int, n: int, ghost lo: int, ghost lx: Lang, ghost size: nat, ghost e: Ending)
      returns (r: Result<int>)
      requires Valid()
      requires IsAt(nfa.State(), x) && nfa.lastst[x] == nfa.lastnfa && nfa.firstst[x] == lo
      requires Accepts(nfa.State().net, At(nfa.State(), x)) == lx
      requires nfa.lastnfa + 1 - lo == size && EndOf(nfa.State(), x) == e
      modifies this`syntaxerror, nfa, nfa.nextecm, nfa.ecgroup
      ensures r.Failure? ==> r.error == TooManyStates && old(nfa.lastnfa) + ExactStates(size, n) > MOST_STATES
      ensures r.Success? ==> nfa.lastnfa == old(nfa.lastnfa) + ExactStates(size, n)
                             && EndOf(nfa.State(), r.value) == if n == 1 then Open else e
      ensures r.Success? ==> nfa.ecgroup[..] == old(nfa.ecgroup[..])
      ensures r.Success? ==> Valid() && Made(old(nfa.State()), nfa.State(), r.value, lo,
                                             if n <= 0 then lx else Cat(lx, Pow(lx, n - 1)))
      ensures r.Success? ==> syntaxerror == (old(syntaxerror) || n <= 0)
      ensures Classes(nfa.ccls) == old(Classes(nfa.ccls))
    {
      hide NfaBuilder.CharsOk, IsAny, InfoBelow, Layout, Made, IsAt, Pow, Cat, Accepts, EndOf, Copies, Extent;
      ghost var b := nfa.State();
      MachineFacts(b, x);
      ExtentIs(b, x);
      MadeSelf(b, x);
      if n <= 0 {
        syntaxerror := true;
        return Success(x);
      }
      var copies :- nfa.CopySingl(x, n - 1);
      var y := nfa.LinkBehind(b, b, x, copies, lo, lx, Pow(lx, n - 1));
      return Success(y);
    }

    /** x{0,ub}: mkopt of mkrep. */
    method OptRep(x: int, ghost lo: int, ghost lx: Lang, ub: int, ghost size: nat, ghost e: Ending)
      returns (r: Result<int>)
      requires nfa.Valid() && IsAt(nfa.State(), x) && nfa.lastst[x] == nfa.lastnfa && nfa.firstst[x] == lo && ub >= 1
      requires Accepts(nfa.State().net, At(nfa.State(), x)) == lx
      requires nfa.lastnfa + 1 - lo == size && EndOf(nfa.State(), x) == e
      modifies nfa, nfa.nextecm, nfa.ecgroup
      ensures r.Failure? ==> r.error == TooManyStates
                             && old(nfa.lastnfa) + RepStates(size, e, 1, ub) + OptStates(Open) > MOST_STATES
      ensures r.Success? ==> nfa.lastnfa == old(nfa.lastnfa) + RepStates(size, e, 1, ub) + OptStates(Open)
                             && EndOf(nfa.State(), r.value) == Open
      ensures r.Success? ==> nfa.ecgroup[..] == old(nfa.ecgroup[..])
      ensures r.Success? ==> nfa.Valid() && Made(old(nfa.State()), nfa.State(), r.value, lo, Times(lx, 0, ub))
    {
      hide NfaBuilder.CharsOk, Made, IsAt, Times, Accepts, EndOf, RepStates, Extent;
      ghost var b := nfa.State();
      MachineFacts(b, x);
      ExtentIs(b, x);
      var y :- nfa.MkRep(x, 1, ub);
      ghost var c := nfa.State();
      MadeMachine(b, c, y, lo, Times(lx, 1, ub));
      MachineFacts(c, y);
      TimesFromZero(lx, ub);
      r := nfa.MkOpt(y);
      if r.Success? { MadeAfter(b, c, nfa.State(), y, r.value, lo, Times(lx, 1, ub), Times(lx, 0, ub)); }
    }
  }

  // ----- compound patterns

  lemma ProperParts(re: Re)
    requires Proper(re)
    ensures re.Seq? ==> Proper(re.first) && Proper(re.second)
    ensures re.Alt? ==> Proper(re.left) && Proper(re.right)
    ensures re.Closure? || re.Positive? || re.Optional? || re.Iterate? || re.IterateFrom? || re.IterateExactly?
            ==> Proper(re.re) && IsWrap(re, re.re)
    ensures re.Str? ==> WellFormed(re)
  {}

  ghost predicate IsWrap(re: Re, sub: Re) {
    match re
    case Closure(a) => a == sub
    case Positive(a) => a == sub
    case Optional(a) => a == sub
    case Iterate(a, _, _) => a == sub
    case IterateFrom(a, _) => a == sub
    case IterateExactly(a, _) => a == sub
    case _ => false
  }

  /** The numbers of an operator make no sense. */
  predicate BadWrap(re: Re) {
    match re
    case Iterate(_, lb, ub) => BadIteration(lb, ub)
    case IterateFrom(_, lb) => lb <= 0
    case IterateExactly(_, n) => n <= 0
    case _ => false
  }

  /** What a postfix operator makes of a language. */
  ghost function Applied(re: Re, l: Lang): Lang {
    match re
    case Closure(_) => Star(l)
    case Positive(_) => Plus(l)
    case Optional(_) => UNIT + l
    case Iterate(_, lb, ub) => if BadIteration(lb, ub) then l else Times(l, lb, ub)
    case IterateFrom(_, lb) => if lb <= 0 then l else AtLeast(l, lb)
    case IterateExactly(_, n) => if n <= 0 then l else Pow(l, n)
    case _ => l
  }

  lemma ReadApplied(re: Re, l: Lang, cls: seq<ClassInfo>, csize: int)
    ensures Read(Applied(re, l), cls, csize) == Applied(re, Read(l, cls, csize))
  {
    hide Read, Star, Plus, Times, AtLeast, Pow;
    match re {
      case Closure(_) => ReadRepeats(l, cls, csize, 0, 0);
      case Positive(_) => ReadRepeats(l, cls, csize, 0, 0);
      case Optional(_) => ReadUnion(UNIT, l, cls, csize); ReadUnit(cls, csize);
      case Iterate(_, lb, ub) => if !BadIteration(lb, ub) { ReadRepeats(l, cls, csize, lb, ub); }
      case IterateFrom(_, lb) => if lb > 0 { ReadRepeats(l, cls, csize, lb, 0); }
      case IterateExactly(_, n) => if n > 0 { ReadPow(l, n, cls, csize); }
      case _ =>
    }
  }

  /** How the builder's results are the languages meant. */
  lemma RepeatParts(re: Re, sub: Re, l: Lang, size: nat, e: Ending)
    requires IsWrap(re, sub)
    ensures re.Iterate? ==> && WrapStates(re, size, e) == FromToStates(size, e, re.lb, re.ub)
                            && WrapEnd(re, e) == (if BadIteration(re.lb, re.ub) then e else Open)
                            && Applied(re, l) == (if BadIteration(re.lb, re.ub) then l else Times(l, re.lb, re.ub))
                            && BadWrap(re) == BadIteration(re.lb, re.ub)
    ensures re.IterateFrom? ==> && WrapStates(re, size, e) == FromStates(size, e, re.lb)
                                && WrapEnd(re, e) == (if re.lb <= 0 then e else Open)
                                && Applied(re, l) == (if re.lb <= 0 then l else Repeated(l, re.lb, INFINITY))
                                && BadWrap(re) == (re.lb <= 0)
    ensures re.IterateExactly? ==> && WrapStates(re, size, e) == ExactStates(size, re.n)
                                   && WrapEnd(re, e) == (if re.n == 1 then Open else e)
                                   && Applied(re, l) == (if re.n <= 0 then l else Cat(l, Pow(l, re.n - 1)))
                                   && BadWrap(re) == (re.n <= 0)
  {
    AppliedIs(re, sub, l);
  }

  lemma AppliedIs(re: Re, sub: Re, l: Lang)
    requires IsWrap(re, sub)
    ensures re.Closure? ==> Applied(re, l) == Star(l)
    ensures re.Positive? ==> Applied(re, l) == Plus(l)
    ensures re.Optional? ==> Applied(re, l) == UNIT + l
    ensures re.Iterate? ==> Applied(re, l) == if re.lb > re.ub || re.lb < 0 || re.ub <= 0 then l
            else Times(l, re.lb, re.ub)
    ensures re.Iterate? && 0 < re.lb <= re.ub ==> Applied(re, l) == Repeated(l, re.lb, re.ub)
    ensures re.IterateFrom? ==> Applied(re, l) == if re.lb <= 0 then l else Repeated(l, re.lb, INFINITY)
    ensures re.IterateExactly? ==> Applied(re, l) == if re.n <= 0 then l else Cat(l, Pow(l, re.n - 1))
  {}

  lemma TimesFromZero(l: Lang, ub: nat)
    requires ub >= 1
    ensures UNIT + Times(l, 1, ub) == Times(l, 0, ub)
  {
    PowNone(l);
    hide Pow;
    forall w ensures w in UNIT + Times(l, 1, ub) <==> w in Times(l, 0, ub) {
      if w in Times(l, 0, ub) { var n: nat :| n <= ub && w in Pow(l, n); }
      if w in UNIT { assert w in Pow(l, 0); }
    }
  }

  lemma WrapParts(a: Arrays, b: Arrays, x: int, cls: seq<ClassInfo>, lx: Lang, sub: Re, csize: int)
    requires Compiled(a, b, x, cls, lx, sub, csize)
    ensures Made(a, b, x, a.net.last + 1, lx) && Made(b, b, x, a.net.last + 1, lx)
    ensures IsAt(b, x) && At(b, x).lo == a.net.last + 1 && At(b, x).hi == b.net.last && Accepts(b.net, At(b, x)) == lx
    ensures Fits(b) && 1 <= x <= b.net.last && b.firstst[x] == a.net.last + 1 && b.lastst[x] == b.net.last
  {
    MadeMachine(a, b, x, a.net.last + 1, lx);
    MadeSelf(b, x);
    MachineFacts(b, x);
  }

  lemma WrapCompiled(a: Arrays, b: Arrays, c: Arrays, x: int, y: int, cls: seq<ClassInfo>, lx: Lang, sub: Re, re: Re,
                     csize: int)
    requires Compiled(a, b, x, cls, lx, sub, csize) && IsWrap(re, sub)
    requires Made(b, c, y, a.net.last + 1, Applied(re, lx)) && Labelled(Accepts(c.net, At(c, y)), |cls|)
    ensures Compiled(a, c, y, cls, Applied(re, lx), re, csize)
  {
    hide Read, Star, Plus, Times, AtLeast, Pow, Labelled, Cat;
    SameBelowTrans(a, b, c, a.net.last + 1, a.net.last + 1);
    ReadApplied(re, lx, cls, csize);
    assert Denotes(re, csize) == Applied(re, Denotes(sub, csize));
  }

  lemma SeqParts(a: Arrays, b: Arrays, c: Arrays, x: int, y: int, lx: Lang, ly: Lang, cls1: seq<ClassInfo>,
                 cls: seq<ClassInfo>, first: Re, second: Re, csize: int)
    requires Compiled(a, b, x, cls1, lx, first, csize) && Compiled(b, c, y, cls, ly, second, csize) && cls1 <= cls
    ensures Made(a, b, x, a.net.last + 1, lx) && Made(b, c, y, b.net.last + 1, ly)
    ensures IsAt(c, x) && IsAt(c, y) && At(c, x).hi + 1 == At(c, y).lo && At(c, y).hi == c.net.last
            && At(c, x).lo == a.net.last + 1
    ensures Fits(c) && 1 <= x <= c.net.last && 1 <= y <= c.net.last && c.lastst[x] + 1 == c.firstst[y]
            && c.lastst[y] == c.net.last
    ensures c.firstst[x] == a.net.last + 1
    ensures Accepts(c.net, At(c, x)) == lx && Accepts(c.net, At(c, y)) == ly
    ensures SameBelow(a, c, a.net.last + 1)
    ensures Read(lx, cls, csize) == Denotes(first, csize) && Read(ly, cls, csize) == Denotes(second, csize)
    ensures EndOf(c, x) == EndOf(b, x)
  {
    hide Read, Labelled, Denotes;
    MadeMachine(a, b, x, a.net.last + 1, lx);
    MadeMachine(b, c, y, b.net.last + 1, ly);
    KeptBelow(b, c, b.net.last + 1, x);
    EndKept(b, c, b.net.last + 1, x);
    MachineFacts(c, x);
    MachineFacts(c, y);
    SameBelowTrans(a, b, c, a.net.last + 1, b.net.last + 1);
    ReadStable(lx, cls1, cls, csize);
  }

  lemma SeqCompiled(a: Arrays, b: Arrays, d: Arrays, m: int, lx: Lang, ly: Lang, cls1: seq<ClassInfo>,
                    cls: seq<ClassInfo>, first: Re, second: Re, csize: int)
    requires Read(lx, cls, csize) == Denotes(first, csize) && Read(ly, cls, csize) == Denotes(second, csize)
    requires Made(a, d, m, a.net.last + 1, Cat(lx, ly)) && Labelled(Accepts(d.net, At(d, m)), |cls|)
    ensures Compiled(a, d, m, cls, Cat(lx, ly), Seq(first, second), csize)
  {
    hide Read, Cat, Labelled;
    ReadCat(lx, ly, cls, csize);
  }

  lemma AltCompiled(a: Arrays, b: Arrays, c: Arrays, d: Arrays, x: int, y: int, m: int, lx: Lang, ly: Lang,
                    cls1: seq<ClassInfo>, cls: seq<ClassInfo>, left: Re, right: Re, csize: int)
    requires Read(lx, cls, csize) == Denotes(left, csize) && Read(ly, cls, csize) == Denotes(right, csize)
    requires Made(c, d, m, a.net.last + 1, lx + ly) && Labelled(Accepts(d.net, At(d, m)), |cls|)
             && SameBelow(a, c, a.net.last + 1)
    ensures Compiled(a, d, m, cls, lx + ly, Alt(left, right), csize)
  {
    hide Read, Labelled;
    ReadUnion(lx, ly, cls, csize);
    SameBelowTrans(a, c, d, a.net.last + 1, a.net.last + 1);
  }

  lemma StrStart(a: Arrays, b: Arrays, m: int, cls: seq<ClassInfo>, csize: int)
    requires Made(a, b, m, a.net.last + 1, Symbol(SYM_EPSILON)) && Labelled(Accepts(b.net, At(b, m)), |cls|)
    ensures Compiled(a, b, m, cls, UNIT, Str([]), csize)
  {
    ReadUnit(cls, csize);
  }

  lemma StrStep(a: Arrays, d: Arrays, m: int, cls: seq<ClassInfo>, l: Lang, chars: seq<int>, k: int, csize: int)
    requires 0 <= k < |chars| && Compiled(a, d, m, cls, l, Seq(Str(chars[..k]), Char(chars[k])), csize)
    ensures Compiled(a, d, m, cls, l, Str(chars[..k + 1]), csize)
  {
    assert chars[..k + 1] == chars[..k] + [chars[k]];
    InCat(chars[..k], [chars[k]], iset{chars[..k]}, iset{[chars[k]]});
    assert Denotes(Str(chars[..k + 1]), csize) == Denotes(Seq(Str(chars[..k]), Char(chars[k])), csize);
  }

  /** Machine m, made of the new states behind before, reads exactly the strings of re. */
  ghost predicate Compiled(before: Arrays, after: Arrays, m: int, cls: seq<ClassInfo>, l: Lang, re: Re, csize: int) {
    Made(before, after, m, before.net.last + 1, l) && Labelled(l, |cls|) && Read(l, cls, csize) == Denotes(re, csize)
  }

  lemma AnyMeans(cls: seq<ClassInfo>, ccl: int, csize: int)
    requires IsAny(cls, ccl)
    ensures (iset c | Matches(-ccl, c, cls, csize) :: [c]) == Denotes(Any, csize)
  {
    var sym := -ccl;
    forall c ensures Matches(sym, c, cls, csize) <==> 0 <= c < csize && c != 10 {
      Newline(c);
    }
  }

  lemma Newline(c: int)
    ensures InItems([One(10)], c) <==> c == 10
  {
    if c == 10 { assert InItem([One(10)][0], c); }
    if InItems([One(10)], c) {
      var k :| 0 <= k < 1 && InItem([One(10)][k], c);
      assert [One(10)][k] == One(10);
    }
  }

  lemma AnyLabel(cls: seq<ClassInfo>, ccl: int)
    requires IsAny(cls, ccl)
    ensures 1 <= ccl <= |cls|
  {}

  lemma ClassMeans(before: seq<ClassInfo>, after: seq<ClassInfo>, items: seq<CclItem>, negated: bool, csize: int)
    requires ClassEntered(before, after, items, negated)
    ensures (iset c | Matches(-|after|, c, after, csize) :: [c]) == ClassChars(items, negated, csize)
  {
    var sym := -|after|;
    forall c ensures Matches(sym, c, after, csize) <==> 0 <= c < csize && (InItems(items, c) != negated) {}
  }

  lemma EnteredInhabited(before: seq<ClassInfo>, after: seq<ClassInfo>, items: seq<CclItem>, negated: bool, csize: int)
    requires ClassEntered(before, after, items, negated)
    ensures StillInhabited(before, after, Class(items, negated), csize)
  {
    if Inhabited(Class(items, negated), csize) && NoneEmpty(before, csize) {
      var c :| 0 <= c < csize && InItems(items, c) != negated;
      assert (c in after[|before|].members) != after[|before|].negated;
    }
  }

  lemma SameInhabited(cls: seq<ClassInfo>, re: Re, csize: int)
    ensures StillInhabited(cls, cls, re, csize)
  {}

  /** What the parts of a pattern add makes the pattern. */
  lemma PartsInhabited(c0: seq<ClassInfo>, c1: seq<ClassInfo>, c2: seq<ClassInfo>, x: Re, y: Re, re: Re, csize: int)
    requires StillInhabited(c0, c1, x, csize) && StillInhabited(c1, c2, y, csize)
    requires re == Seq(x, y) || re == Alt(x, y)
    ensures StillInhabited(c0, c2, re, csize) && (WellFormed(re) <==> WellFormed(x) && WellFormed(y))
  {
    hide NoneEmpty;
  }

  lemma WrapInhabited(c0: seq<ClassInfo>, c1: seq<ClassInfo>, x: Re, re: Re, csize: int)
    requires StillInhabited(c0, c1, x, csize) && IsWrap(re, x)
    ensures StillInhabited(c0, c1, re, csize) && (WellFormed(re) <==> WellFormed(x) && !BadWrap(re))
  {
    hide NoneEmpty;
  }

  lemma WrapDivided(b0: seq<int>, b1: seq<int>, csize: int, x: Re, re: Re)
    requires Divided(b0, b1, csize, x) && IsWrap(re, x)
    ensures Divided(b0, b1, csize, re)
  {
    hide OneList;
  }

  lemma EnteredLabel(before: seq<ClassInfo>, after: seq<ClassInfo>, items: seq<CclItem>, negated: bool)
    requires ClassEntered(before, after, items, negated)
    ensures |after| >= 1 && before <= after
  {}

  /** cshell on the members of the last class. */
  method SortClass(ccls: CclTable, ccl: int)
    requires ccls.Valid() && 1 <= ccl == ccls.lastccl
    requires forall p :: 0 <= p < |ccls.Members(ccl)| ==> 0 <= ccls.Members(ccl)[p] < CSIZE
    modifies ccls.ccltbl
    ensures ccls.Valid() && InfoBelow(ccls, ccl - 1) == old(InfoBelow(ccls, ccl - 1))
    ensures multiset(ccls.Members(ccl)) == multiset(old(ccls.Members(ccl)))
    ensures Ordered(ccls.Members(ccl), 0, |ccls.Members(ccl)|, true)
  {
    hide Layout, Segment, Permuted, Ordered;
    ghost var t0, m0 := ccls.ccltbl[..], ccls.Members(ccl);
    SegmentAt(t0, ccls.cclmap, ccls.ccllen, ccls.lastccl, ccl);
    var lo, n := ccls.cclmap[ccl], ccls.ccllen[ccl];
    assert forall p :: lo <= p < lo + n ==> ccls.ccltbl[p] == m0[p - lo];
    CShell(ccls.ccltbl, lo, n, true);
    SegmentAt(ccls.ccltbl[..], ccls.cclmap, ccls.ccllen, ccls.lastccl, ccl);
    SortedSegment(t0, ccls.ccltbl[..], lo, n);
    forall i | 1 <= i < ccl ensures ccls.Members(i) == old(ccls.Members(i)) {
      SegmentUntouched(t0, ccls.ccltbl[..], ccls.cclmap, ccls.ccllen, ccls.lastccl, i, ccl);
    }
  }

  lemma SortedSegment(a: seq<int>, b: seq<int>, lo: int, n: int)
    requires 0 <= lo && 0 <= n && lo + n <= |a| && Permuted(a, b, lo, lo + n) && Ordered(b, lo, lo + n, true)
    ensures multiset(a[lo..lo + n]) == multiset(b[lo..lo + n]) && Ordered(b[lo..lo + n], 0, n, true)
  {}

  lemma SegmentUntouched(a: seq<int>, b: seq<int>, cclmap: seq<int>, ccllen: seq<int>, lastccl: int, i: int, j: int)
    requires Layout(cclmap, ccllen, lastccl, |a|) && 1 <= i < j <= lastccl
    requires Permuted(a, b, cclmap[j], cclmap[j] + ccllen[j])
    ensures Segment(a, cclmap, ccllen, i) == Segment(b, cclmap, ccllen, i)
  {}

  lemma GatheredFacts(m: seq<int>, items: seq<CclItem>, csize: int, sorted: bool, lastchar: int)
    requires Gathered(m, items, csize, sorted, lastchar) && csize <= CSIZE
    ensures forall p :: 0 <= p < |m| ==> 0 <= m[p] < CSIZE
  {}

  /** After sorting where needed, the class is stored as mkeccl wants it. */
  lemma Stored(m: seq<int>, m': seq<int>, items: seq<CclItem>, csize: nat, sorted: bool, lastchar: int)
    requires Gathered(m, items, csize, sorted, lastchar) && 0 < csize <= CSIZE
    requires if sorted then m' == m else multiset(m') == multiset(m) && Ordered(m', 0, |m'|, true)
    ensures ClassStored(m', csize) && forall c :: c in m' <==> InItems(items, c)
  {
    SortedMembers(m, m');
    if sorted { StoredAscending(m, csize, lastchar); }
    forall p | 0 <= p < |m'| ensures 0 <= m'[p] < csize {
      assert m'[p] in m';
      assert m'[p] in m;
    }
    StoredOrdered(m', csize);
    DistinctSize(m', csize, csize + 1);
  }

  /** The classes below k have not moved. */
  lemma InfoSame(ccls: CclTable, before: seq<ClassInfo>, t0: seq<int>, m0: seq<int>, l0: seq<int>, ccl: int,
                 bck: seq<int>, csize: nat)
    requires ccls.Valid() && 1 <= ccl == ccls.lastccl && InfoBelow(ccls, ccl - 1) == before && |before| == ccl - 1
    requires forall i :: 0 <= i < |before| ==> before[i].members == Segment(t0, m0, l0, i + 1)
    requires ClassesOk(t0, m0, l0, ccl - 1, bck, csize)
    ensures ClassesOk(ccls.ccltbl[..], ccls.cclmap, ccls.ccllen, ccl - 1, bck, csize)
  {
    hide Segment, Whole, ClassStored;
    forall i | 1 <= i <= ccl - 1 ensures ClassOkAt(ccls.ccltbl[..], ccls.cclmap, ccls.ccllen, i, bck, csize) {
      assert ClassOkAt(t0, m0, l0, i, bck, csize);
      assert before[i - 1].members == Segment(t0, m0, l0, (i - 1) + 1);
      assert InfoBelow(ccls, ccl - 1)[i - 1].members == ccls.Members(i);
    }
  }

  lemma Entered(before: seq<ClassInfo>, after: seq<ClassInfo>, items: seq<CclItem>, negated: bool)
    requires |after| == |before| + 1 && before <= after && after[|before|].negated == negated
    requires forall c :: c in after[|before|].members <==> InItems(items, c)
    ensures ClassEntered(before, after, items, negated)
  {}

  lemma NewlineStored(csize: nat)
    requires 128 <= csize
    ensures ClassStored([10], csize)
  {}

  lemma NewlineAny(before: seq<ClassInfo>, after: seq<ClassInfo>, ccl: int, csize: int)
    requires ccl == |after| == |before| + 1 && before <= after && after[|before|] == ClassInfo([10], true)
    requires csize >= 1
    ensures IsAny(after, ccl) && StillInhabited(before, after, Any, csize)
  {
    assert 0 !in after[|before|].members;
    forall c ensures c in [10] <==> InItems([One(10)], c) { Newline(c); }
  }

  /** cls[ccl - 1] is the class of all characters but newline. */
  ghost predicate IsAny(cls: seq<ClassInfo>, ccl: int) {
    1 <= ccl <= |cls| && cls[ccl - 1].negated && forall c :: c in cls[ccl - 1].members <==> InItems([One(10)], c)
  }

  lemma AnyStays(before: seq<ClassInfo>, after: seq<ClassInfo>, ccl: int)
    requires before <= after
    ensures IsAny(before, ccl) ==> IsAny(after, ccl)
  {}
}
