/** The shared nxt/chk arrays of the compressed tables and the placement of single entries in them
    (tblcmp.c: mkentry, mk1tbl, stack1, expand_nxt_chk). An entry is a partial row: the transitions
    written out explicitly, plus the link to the table entry that decides all the others. */
module Packing {
  import opened Flexdef

  datatype Entry = Entry(ext: map<int, int>, link: int)

  /** Class c of a row has to be written out: the linked entry does not decide it. */
  predicate IsExplicit(v: int, deflink: int) {
    v != SAME_TRANS && (v != 0 || deflink != JAMSTATE)
  }

  /** The transitions of state[1..n] that have to be written out. */
  ghost function Explicit(state: seq<int>, n: int, deflink: int): map<int, int>
    requires n < |state|
  {
    map c | 1 <= c <= n && IsExplicit(state[c], deflink) :: state[c]
  }

  /** What mkentry makes of state: its explicit part, or, where totaltrans counts a transition that is not there, and no
      other, an entry for the class behind the last one. */
  ghost function MadeEntry(state: seq<int>, n: int, deflink: int, totaltrans: int, behind: int): Entry
    requires n < |state|
  {
    var x := Explicit(state, n, deflink);
    if x == map[] && totaltrans == 1 then Entry(map[n + 1 := behind], deflink) else Entry(x, deflink)
  }

  /** Entry e is where base[s] says, and nothing else in chk belongs to s. */
  ghost predicate Placed(nxt: seq<int>, chk: seq<int>, base: seq<int>, def: seq<int>, s: int, e: Entry) {
    0 < s < |base| && s < |def| && def[s] == e.link && PlacedAt(nxt, chk, base[s], s, e)
  }

  ghost predicate PlacedAt(nxt: seq<int>, chk: seq<int>, tb: int, s: int, e: Entry) {
    && |nxt| == |chk|
    && (if e.ext == map[] then tb == (if e.link == JAMSTATE then JAMSTATE else 0) else tb >= 0)
    && (forall c :: c in e.ext ==> 0 <= c && 0 < tb + c < |chk| && chk[tb + c] == s && nxt[tb + c] == e.ext[c])
    && (forall p :: 0 <= p < |chk| && chk[p] == s ==> p - tb in e.ext)
  }

  ghost predicate AllPlaced(nxt: seq<int>, chk: seq<int>, base: seq<int>, def: seq<int>, placed: map<int, Entry>) {
    && (forall s :: s in placed ==> Placed(nxt, chk, base, def, s, placed[s]))
    && (forall p :: 0 <= p < |chk| && chk[p] != 0 ==> chk[p] in placed)
  }

  /** Slots behind tblend are free, and so is slot 0. */
  ghost predicate Frontier(chk: seq<int>, tblend: int) {
    |chk| > 0 && chk[0] == 0 && forall p :: tblend < p < |chk| && 0 <= p ==> chk[p] == 0
  }

  predicate Bounds(len: int, tblend: int, firstfree: int) {
    INITIAL_MAX_XPAIRS <= len && 0 <= tblend && tblend + 1 < len && 1 <= firstfree <= tblend + 1
  }

  /** The arrays after some growth: old contents kept, the new part of chk zero. */
  ghost predicate Grown(nxt': seq<int>, chk': seq<int>, nxt: seq<int>, chk: seq<int>) {
    && |nxt'| == |chk'| >= |nxt| == |chk|
    && nxt'[..|nxt|] == nxt && chk'[..|chk|] == chk
    && forall p :: |chk| <= p < |chk'| ==> chk'[p] == 0
  }

  lemma GrownTrans(n2: seq<int>, c2: seq<int>, n1: seq<int>, c1: seq<int>, n0: seq<int>, c0: seq<int>)
    requires Grown(n2, c2, n1, c1) && Grown(n1, c1, n0, c0)
    ensures Grown(n2, c2, n0, c0)
  {
    assert n2[..|n0|] == n2[..|n1|][..|n0|];
    assert c2[..|c0|] == c2[..|c1|][..|c0|];
    forall p | |c0| <= p < |c1| ensures c2[p] == 0 { assert c2[..|c1|][p] == c1[p]; }
  }

  lemma GrownAt(n1: seq<int>, c1: seq<int>, n0: seq<int>, c0: seq<int>, p: int)
    requires Grown(n1, c1, n0, c0) && 0 <= p < |c1|
    ensures c1[p] == if p < |c0| then c0[p] else 0
    ensures p < |n0| ==> n1[p] == n0[p]
  {
    if p < |c0| { assert c1[..|c0|][p] == c0[p] && n1[..|n0|][p] == n0[p]; }
  }

  lemma GrownKeeps(nxt': seq<int>, chk': seq<int>, nxt: seq<int>, chk: seq<int>, base: seq<int>, def: seq<int>,
                   placed: map<int, Entry>, tblend: int)
    requires Grown(nxt', chk', nxt, chk)
    ensures AllPlaced(nxt, chk, base, def, placed) && 0 !in placed ==> AllPlaced(nxt', chk', base, def, placed)
    ensures Frontier(chk, tblend) && |chk| > 0 ==> Frontier(chk', tblend)
    ensures |nxt'| == |chk'| >= |nxt| == |chk|
  {
    forall p | 0 <= p < |chk'|
      ensures chk'[p] == if p < |chk| then chk[p] else 0
      ensures p < |chk| ==> nxt'[p] == nxt[p]
    {
      GrownAt(nxt', chk', nxt, chk, p);
    }
  }

  /** The arrays after entry e of s has been written: at tb + c for each explicit class c. */
  ghost predicate Written(nxt': seq<int>, chk': seq<int>, nxt: seq<int>, chk: seq<int>, s: int, tb: int,
                          ext: map<int, int>) {
    && |nxt'| == |nxt| == |chk'| == |chk|
    && forall p :: 0 <= p < |chk| ==>
         chk'[p] == (if p - tb in ext then s else chk[p]) && nxt'[p] == (if p - tb in ext then ext[p - tb] else nxt[p])
  }

  /** The slots that entry would take are free. */
  ghost predicate Fits(chk: seq<int>, tb: int, ext: map<int, int>) {
    forall c :: c in ext ==> 0 <= c && 0 < tb + c < |chk| && chk[tb + c] == 0
  }

  ghost predicate Taken(chk: seq<int>, p: int) {
    0 <= p < |chk| && chk[p] != 0
  }

  /** Slot p is the first free one from start on. */
  ghost predicate FirstFree(chk: seq<int>, start: int, p: int) {
    start <= p && !Taken(chk, p) && forall a :: start <= a < p ==> Taken(chk, a)
  }

  /** With its first transition, minec, at slot b, one of the transitions in ext would need a slot that is taken. */
  ghost predicate Blocked(chk: seq<int>, ext: map<int, int>, minec: int, b: int) {
    exists c :: c in ext && Taken(chk, b + c - minec)
  }

  /** Where mkentry puts the first transition, minec, of ext. A sparse row goes to the first place from firstfree on
      that suits it, any other one behind everything else; the base is not negative. */
  ghost predicate Suits(chk: seq<int>, tblend: int, firstfree: int, ext: map<int, int>, minec: int, sparse: bool,
                        b: int)
  {
    if sparse then
      firstfree <= b && minec <= b && !Blocked(chk, ext, minec, b)
      && forall a :: firstfree <= a < b && minec <= a ==> Blocked(chk, ext, minec, a)
    else
      b == if tblend + 1 > minec then tblend + 1 else minec
  }

  /** A row whose transitions range from minec to maxec has got the base tb, and with it tblend and firstfree have
      moved: the one to the last slot taken, the other, where its slot is taken now, to the next free one. */
  ghost predicate RowWent(chk: seq<int>, tblend: int, firstfree: int, chk': seq<int>, tblend': int, firstfree': int,
                          tb: int, ext: map<int, int>, minec: int, maxec: int, sparse: bool)
  {
    && minec in ext && maxec in ext && (forall c :: c in ext ==> minec <= c <= maxec)
    && Suits(chk, tblend, firstfree, ext, minec, sparse, tb + minec)
    && tblend' == (if tblend > tb + maxec then tblend else tb + maxec)
    && if tb + minec == firstfree then FirstFree(chk', firstfree + 1, firstfree') else firstfree' == firstfree
  }

  ghost predicate RowPlaced(chk: seq<int>, tblend: int, firstfree: int, chk': seq<int>, tblend': int, firstfree': int,
                            tb: int, ext: map<int, int>, sparse: bool)
  {
    exists minec, maxec :: RowWent(chk, tblend, firstfree, chk', tblend', firstfree', tb, ext, minec, maxec, sparse)
  }

  /** A single transition on sym has gone to the first free slot from firstfree on that gives a base. */
  ghost predicate SlotPlaced(chk: seq<int>, tblend: int, firstfree: int, tblend': int, firstfree': int, tb: int,
                             sym: int)
  {
    && FirstFree(chk, if firstfree < sym then sym else firstfree, tb + sym)
    && if tb + sym > tblend then tblend' == tb + sym && firstfree' == tb + sym + 1
       else tblend' == tblend && firstfree' == tb + sym
  }

  lemma TakenNow(chk: seq<int>, p: int)
    requires 0 <= p < |chk| && chk[p] != 0
    ensures Taken(chk, p)
  {}

  lemma NextIs(chk: seq<int>, from: int, p: int)
    requires FirstFree(chk, from + 1, p)
    ensures forall a :: from < a < p ==> Taken(chk, a)
  {}

  lemma BlockedBy(chk: seq<int>, ext: map<int, int>, minec: int, b: int, c: int)
    requires c in ext && Taken(chk, b + c - minec)
    ensures Blocked(chk, ext, minec, b)
  {}

  /** Slots taken now were taken before the arrays grew. */
  lemma TakenBefore(n1: seq<int>, c1: seq<int>, n0: seq<int>, c0: seq<int>, p: int)
    requires Grown(n1, c1, n0, c0) && Taken(c1, p)
    ensures Taken(c0, p)
  {
    GrownAt(n1, c1, n0, c0, p);
  }

  /** No slot taken between from and to can have the first transition. */
  lemma BlockedBetween(n1: seq<int>, c1: seq<int>, n0: seq<int>, c0: seq<int>, ext: map<int, int>, minec: int,
                       from: int, to: int)
    requires Grown(n1, c1, n0, c0) && minec in ext && forall a :: from < a < to ==> Taken(c1, a)
    ensures forall a :: from < a < to ==> Blocked(c0, ext, minec, a)
  {
    forall a | from < a < to ensures Blocked(c0, ext, minec, a) {
      TakenBefore(n1, c1, n0, c0, a);
      BlockedBy(c0, ext, minec, a, minec);
    }
  }

  lemma FitsNow(n1: seq<int>, c1: seq<int>, n0: seq<int>, c0: seq<int>, ext: map<int, int>, minec: int, b: int)
    requires Grown(n1, c1, n0, c0) && Fits(c1, b - minec, ext)
    ensures !Blocked(c0, ext, minec, b)
  {
    forall c | c in ext ensures !Taken(c0, b + c - minec) {
      assert 0 < b - minec + c < |c1| && c1[b - minec + c] == 0;
      GrownAt(n1, c1, n0, c0, b - minec + c);
    }
  }

  lemma WrittenAt(nxt': seq<int>, chk': seq<int>, nxt: seq<int>, chk: seq<int>, s: int, tb: int, ext: map<int, int>,
                  p: int)
    requires Written(nxt', chk', nxt, chk, s, tb, ext) && 0 <= p < |chk|
    ensures |nxt'| == |nxt| == |chk'| == |chk|
    ensures chk'[p] == (if p - tb in ext then s else chk[p]) && nxt'[p] == if p - tb in ext then ext[p - tb] else nxt[p]
  {}

  lemma FitsAt(chk: seq<int>, tb: int, ext: map<int, int>, c: int)
    requires Fits(chk, tb, ext) && c in ext
    ensures 0 <= c && 0 < tb + c < |chk| && chk[tb + c] == 0
  {}

  lemma WrittenSizes(nxt': seq<int>, chk': seq<int>, nxt: seq<int>, chk: seq<int>, s: int, tb: int, ext: map<int, int>)
    requires Written(nxt', chk', nxt, chk, s, tb, ext)
    ensures |nxt'| == |nxt| == |chk'| == |chk|
  {}

  lemma PlacedNew(nxt': seq<int>, chk': seq<int>, nxt: seq<int>, chk: seq<int>, base: seq<int>, def: seq<int>,
                  s: int, tb: int, e: Entry)
    requires 0 < s < |base| && s < |def| && |nxt| == |chk| && s !in chk
    requires Fits(chk, tb, e.ext) && Written(nxt', chk', nxt, chk, s, tb, e.ext)
    requires if e.ext == map[] then tb == (if e.link == JAMSTATE then JAMSTATE else 0) else tb >= 0
    ensures Placed(nxt', chk', base[s := tb], def[s := e.link], s, e)
  {
    hide Fits, Written;
    WrittenSizes(nxt', chk', nxt, chk, s, tb, e.ext);
    forall c | c in e.ext
      ensures 0 <= c && 0 < tb + c < |chk'| && chk'[tb + c] == s && nxt'[tb + c] == e.ext[c]
    {
      FitsAt(chk, tb, e.ext, c);
      WrittenAt(nxt', chk', nxt, chk, s, tb, e.ext, tb + c);
    }
    forall p | 0 <= p < |chk'| && chk'[p] == s ensures p - tb in e.ext {
      WrittenAt(nxt', chk', nxt, chk, s, tb, e.ext, p);
      assert chk[p] in chk;
    }
  }

  lemma PlacedOther(nxt': seq<int>, chk': seq<int>, nxt: seq<int>, chk: seq<int>, base: seq<int>, def: seq<int>,
                    s: int, tb: int, e: Entry, t: int, e': Entry)
    requires 0 < s < |base| && s < |def| && |nxt| == |chk| && t != s
    requires Fits(chk, tb, e.ext) && Written(nxt', chk', nxt, chk, s, tb, e.ext)
    requires Placed(nxt, chk, base, def, t, e')
    ensures Placed(nxt', chk', base[s := tb], def[s := e.link], t, e')
  {
    hide Fits, Written;
    WrittenSizes(nxt', chk', nxt, chk, s, tb, e.ext);
    forall c | c in e'.ext
      ensures chk'[base[t] + c] == t && nxt'[base[t] + c] == e'.ext[c]
    {
      WrittenAt(nxt', chk', nxt, chk, s, tb, e.ext, base[t] + c);
      if base[t] + c - tb in e.ext { FitsAt(chk, tb, e.ext, base[t] + c - tb); }
    }
    forall p | 0 <= p < |chk'| && chk'[p] == t ensures p - base[t] in e'.ext {
      WrittenAt(nxt', chk', nxt, chk, s, tb, e.ext, p);
    }
  }

  lemma WrittenKeeps(nxt': seq<int>, chk': seq<int>, nxt: seq<int>, chk: seq<int>, base: seq<int>, def: seq<int>,
                     placed: map<int, Entry>, s: int, tb: int, e: Entry)
    requires AllPlaced(nxt, chk, base, def, placed) && s !in placed && 0 < s < |base| && s < |def|
    requires |nxt| == |chk|
    requires Fits(chk, tb, e.ext) && Written(nxt', chk', nxt, chk, s, tb, e.ext)
    requires if e.ext == map[] then tb == (if e.link == JAMSTATE then JAMSTATE else 0) else tb >= 0
    ensures AllPlaced(nxt', chk', base[s := tb], def[s := e.link], placed[s := e])
  {
    assert s !in chk;
    PlacedNew(nxt', chk', nxt, chk, base, def, s, tb, e);
    forall t | t in placed
      ensures Placed(nxt', chk', base[s := tb], def[s := e.link], t, placed[t])
    {
      PlacedOther(nxt', chk', nxt, chk, base, def, s, tb, e, t, placed[t]);
    }
  }

  lemma WrittenFrontier(nxt': seq<int>, chk': seq<int>, nxt: seq<int>, chk: seq<int>, s: int, tb: int,
                        ext: map<int, int>, tblend: int, tblend': int)
    requires Frontier(chk, tblend) && Fits(chk, tb, ext) && Written(nxt', chk', nxt, chk, s, tb, ext)
    requires 0 <= tblend <= tblend'
    requires forall c :: c in ext ==> tb + c <= tblend'
    ensures Frontier(chk', tblend')
  {
    forall p | tblend' < p < |chk'| ensures chk'[p] == 0 {
      assert p - tb in ext ==> tb + (p - tb) <= tblend';
    }
    assert 0 - tb in ext ==> 0 < tb + (0 - tb);
  }

  // ----- the rows' first and last explicit class

  /** minec and maxec delimit the explicit classes. */
  ghost predicate Spans(state: seq<int>, n: int, deflink: int, minec: int, maxec: int) {
    && 1 <= minec <= maxec <= n < |state|
    && IsExplicit(state[minec], deflink) && IsExplicit(state[maxec], deflink)
    && forall c :: 1 <= c <= n && IsExplicit(state[c], deflink) ==> minec <= c <= maxec
  }

  lemma SpansFound(state: seq<int>, n: int, deflink: int, minec: int, maxec: int)
    requires 1 <= minec <= n < |state| && IsExplicit(state[minec], deflink) && 0 <= maxec <= n
    requires forall c :: 1 <= c < minec ==> !IsExplicit(state[c], deflink)
    requires maxec > 0 ==> IsExplicit(state[maxec], deflink)
    requires forall c :: maxec < c <= n ==> !IsExplicit(state[c], deflink)
    ensures minec <= maxec && Spans(state, n, deflink, minec, maxec)
    ensures minec in Explicit(state, n, deflink)
    ensures forall c :: c in Explicit(state, n, deflink) ==> c <= maxec
  {
  }

  lemma ExplicitCases(state: seq<int>, n: int, deflink: int)
    requires n < |state|
    ensures var x := Explicit(state, n, deflink);
            && (|x| == 0 ==> x == map[])
            && (|x| == 1 ==> forall c :: c in x ==> x == map[c := x[c]])
            && (|x| >= 1 ==> exists c :: c in x)
  {
    var x := Explicit(state, n, deflink);
    if |x| >= 1 {
      assert x.Keys != {};
      var c :| c in x;
      if |x| == 1 {
        forall d | d in x ensures x == map[d := x[d]] {
          assert |x.Keys - {d}| == 0;
          assert x.Keys == {d} + (x.Keys - {d});
        }
      }
    }
  }

  /** The saved one-transition entries: slots 1..onesp of the stack, one per pending state. */
  ghost predicate StackOk(state: seq<int>, sym: seq<int>, next: seq<int>, def: seq<int>, onesp: int,
                          pending: map<int, Entry>, bound: int)
  {
    && |state| == |sym| == |next| == |def| == ONE_STACK_SIZE && 0 <= onesp < ONE_STACK_SIZE
    && (forall i, j :: 1 <= i < j <= onesp ==> state[i] != state[j])
    && (forall i :: 1 <= i <= onesp ==> 0 < state[i] < bound && 0 <= sym[i] <= CSIZE + 1 && state[i] in pending
                                        && pending[state[i]] == Entry(map[sym[i] := next[i]], def[i]))
    && (forall s :: s in pending ==> s in state[1..onesp + 1])
  }

  lemma StackPush(state: seq<int>, sym: seq<int>, next: seq<int>, def: seq<int>, onesp: int,
                  pending: map<int, Entry>, bound: int, s: int, c: int, n: int, d: int)
    requires StackOk(state, sym, next, def, onesp, pending, bound) && onesp < ONE_STACK_SIZE - 1
    requires s !in pending && 0 < s < bound && 0 <= c <= CSIZE + 1
    ensures var k := onesp + 1;
            StackOk(state[k := s], sym[k := c], next[k := n], def[k := d], k, pending[s := Entry(map[c := n], d)],
                bound)
  {
    var k := onesp + 1;
    var state' := state[k := s];
    assert state'[1..k + 1] == state[1..k] + [s];
  }

  lemma StackPop(state: seq<int>, sym: seq<int>, next: seq<int>, def: seq<int>, onesp: int,
                 pending: map<int, Entry>, bound: int)
    requires StackOk(state, sym, next, def, onesp, pending, bound) && onesp > 0
    ensures var s := state[onesp];
            && 0 < s < bound && 0 <= sym[onesp] <= CSIZE + 1 && s in pending
            && pending[s] == Entry(map[sym[onesp] := next[onesp]], def[onesp])
            && StackOk(state, sym, next, def, onesp - 1, pending - {s}, bound)
  {
    var s := state[onesp];
    assert state[1..onesp + 1] == state[1..onesp] + [s];
  }

  lemma StackRange(state: seq<int>, sym: seq<int>, next: seq<int>, def: seq<int>, onesp: int,
                   pending: map<int, Entry>, bound: int)
    requires StackOk(state, sym, next, def, onesp, pending, bound)
    ensures 0 <= onesp < ONE_STACK_SIZE
  {
  }

  lemma StackEmpty(state: seq<int>, sym: seq<int>, next: seq<int>, def: seq<int>, pending: map<int, Entry>, bound: int)
    requires StackOk(state, sym, next, def, 0, pending, bound)
    ensures pending == map[]
  {
    assert forall s :: s in pending ==> s in state[1..1];
    assert pending.Keys == {};
  }

  /** The arrays hold exactly the placed entries, and nothing behind tblend. */
  ghost predicate Consistent(nxt: seq<int>, chk: seq<int>, base: seq<int>, def: seq<int>, tblend: int,
                             placed: map<int, Entry>)
  {
    |nxt| == |chk| && Frontier(chk, tblend) && AllPlaced(nxt, chk, base, def, placed) && 0 !in placed
  }

  lemma ConsistentGrown(nxt': seq<int>, chk': seq<int>, nxt: seq<int>, chk: seq<int>, base: seq<int>, def: seq<int>,
                        tblend: int, placed: map<int, Entry>)
    requires Consistent(nxt, chk, base, def, tblend, placed) && Grown(nxt', chk', nxt, chk)
    ensures Consistent(nxt', chk', base, def, tblend, placed)
  {
    GrownKeeps(nxt', chk', nxt, chk, base, def, placed, tblend);
  }

  lemma ConsistentRow(nxt': seq<int>, chk': seq<int>, nxt: seq<int>, chk: seq<int>, base: seq<int>, def: seq<int>,
                      placed: map<int, Entry>, s: int, tb: int, e: Entry, tblend: int, end: int)
    requires Consistent(nxt, chk, base, def, tblend, placed) && s !in placed && 0 < s < |base| && s < |def|
    requires Fits(chk, tb, e.ext) && Written(nxt', chk', nxt, chk, s, tb, e.ext)
    requires e.ext != map[] && tb >= 0 && 0 <= tblend <= end && forall c :: c in e.ext ==> tb + c <= end
    ensures |nxt'| == |chk'| == |chk|
    ensures Consistent(nxt', chk', base[s := tb], def[s := e.link], end, placed[s := e])
  {
    WrittenKeeps(nxt', chk', nxt, chk, base, def, placed, s, tb, e);
    WrittenFrontier(nxt', chk', nxt, chk, s, tb, e.ext, tblend, end);
  }

  lemma ConsistentEmpty(nxt: seq<int>, chk: seq<int>, base: seq<int>, def: seq<int>, tblend: int,
                        placed: map<int, Entry>, s: int, deflink: int)
    requires Consistent(nxt, chk, base, def, tblend, placed) && s !in placed && 0 < s < |base| && s < |def|
    ensures Consistent(nxt, chk, base[s := if deflink == JAMSTATE then JAMSTATE else 0], def[s := deflink], tblend,
                       placed[s := Entry(map[], deflink)])
  {
    WrittenKeeps(nxt, chk, nxt, chk, base, def, placed, s, if deflink == JAMSTATE then JAMSTATE
        else 0, Entry(map[], deflink));
  }

  lemma SlotWritten(nxt': seq<int>, chk': seq<int>, nxt: seq<int>, chk: seq<int>, s: int, sym: int, slot: int,
                    ext: map<int, int>)
    requires |nxt| == |chk| && 0 <= sym <= slot && 1 <= slot < |chk| && chk[slot] == 0
    requires sym in ext && ext.Keys == {sym} && chk' == chk[slot := s] && nxt' == nxt[slot := ext[sym]]
    ensures Written(nxt', chk', nxt, chk, s, slot - sym, ext) && Fits(chk, slot - sym, ext)
    ensures ext != map[] && forall c :: c in ext ==> slot - sym + c == slot
  {
    assert forall c :: c in ext ==> c == sym;
  }

  lemma ConsistentSlot(nxt': seq<int>, chk': seq<int>, nxt: seq<int>, chk: seq<int>, base: seq<int>, def: seq<int>,
                       placed: map<int, Entry>, s: int, sym: int, slot: int, e: Entry, tblend: int, end: int)
    requires Consistent(nxt, chk, base, def, tblend, placed) && s !in placed && 0 < s < |base| && s < |def|
    requires 0 <= sym <= slot && 1 <= slot < |chk| && chk[slot] == 0
    requires sym in e.ext && e.ext.Keys == {sym} && |nxt| == |chk|
    requires chk' == chk[slot := s] && nxt' == nxt[slot := e.ext[sym]]
    requires 0 <= tblend <= end && slot <= end
    ensures Consistent(nxt', chk', base[s := slot - sym], def[s := e.link], end, placed[s := e])
  {
    hide Consistent, Written, Fits;
    SlotWritten(nxt', chk', nxt, chk, s, sym, slot, e.ext);
    ConsistentRow(nxt', chk', nxt, chk, base, def, placed, s, slot - sym, e, tblend, end);
  }

  lemma ConsistentFacts(nxt: seq<int>, chk: seq<int>, base: seq<int>, def: seq<int>, tblend: int,
                        placed: map<int, Entry>)
    requires Consistent(nxt, chk, base, def, tblend, placed)
    ensures |nxt| == |chk| && Frontier(chk, tblend)
  {
  }

  ghost predicate Apart(placed: map<int, Entry>, pending: map<int, Entry>) {
    placed.Keys !! pending.Keys
  }

  class PackedTables {
    var nxt: seq<int>
    var chk: seq<int>
    var base: seq<int>
    var def: seq<int>
    var tblend: int
    var firstfree: int
    const onestate: array<int>
    const onesym: array<int>
    const onenext: array<int>
    const onedef: array<int>
    var onesp: int
    ghost var placed: map<int, Entry>
    ghost var pending: map<int, Entry>

    ghost const Repr: set<object> := {this, onestate, onesym, onenext, onedef}

    ghost predicate Shape() {
      && onestate.Length == onesym.Length == onenext.Length == onedef.Length == ONE_STACK_SIZE
      && onestate != onesym && onestate != onenext && onestate != onedef
      && onesym != onenext && onesym != onedef && onenext != onedef
    }

    ghost predicate Valid()
      reads this, onestate, onesym, onenext, onedef
    {
      && Shape()
      && |base| == |def| && Bounds(|chk|, tblend, firstfree)
      && Consistent(nxt, chk, base, def, tblend, placed)
      && StackOk(onestate[..], onesym[..], onenext[..], onedef[..], onesp, pending, |base|)
      && Apart(placed, pending)
    }

    /** The entry of every state or template that has been made, placed or still on the stack. */
    ghost function Entries(): map<int, Entry>
      reads `placed, `pending
    {
      placed + pending
    }

    /** inittbl, with room for dfas table entries. */
    constructor (dfas: nat)
      ensures Valid() && Entries() == map[] && |base| == dfas && fresh(Repr)
      ensures onesp == 0 && tblend == 0
    {
      nxt := seq(INITIAL_MAX_XPAIRS, _ => 0);
      chk := seq(INITIAL_MAX_XPAIRS, _ => 0);
      base := seq(dfas, _ => 0);
      def := seq(dfas, _ => 0);
      tblend, firstfree := 0, 1;
      onestate := new int[ONE_STACK_SIZE];
      onesym := new int[ONE_STACK_SIZE];
      onenext := new int[ONE_STACK_SIZE];
      onedef := new int[ONE_STACK_SIZE];
      onesp := 0;
      placed, pending := map[], map[];
    }

    /** Reallocation: old contents kept, the new part arbitrary. */
    static method Reallocate(a: seq<int>, extra: nat) returns (r: seq<int>)
      ensures |r| == |a| + extra && r[..|a|] == a
    {
      r := a + seq(extra, _ => 0);
    }

    method ExpandNxtChk()
      requires |nxt| == |chk|
      modifies this`nxt, this`chk
      ensures Grown(nxt, chk, old(nxt), old(chk)) && |chk| == old(|chk|) + MAX_XPAIRS_INCREMENT
    {
      ghost var chk0 := chk;
      nxt := Reallocate(nxt, MAX_XPAIRS_INCREMENT);
      chk := chk + seq(MAX_XPAIRS_INCREMENT, _ => 0);
      assert chk[..|chk0|] == chk0;
    }

    /** The loop "while top >= current_max_xpairs" around expand_nxt_chk. */
    method EnsureXpairs(top: int)
      requires |nxt| == |chk|
      modifies this`nxt, this`chk
      ensures Grown(nxt, chk, old(nxt), old(chk)) && top < |chk|
    {
      assert nxt[..|nxt|] == nxt && chk[..|chk|] == chk;
      ghost var nxt0, chk0 := nxt, chk;
      while top >= |chk|
        invariant |nxt| == |chk| && Grown(nxt, chk, nxt0, chk0)
        decreases top - |chk|
      {
        ghost var nxt1, chk1 := nxt, chk;
        ExpandNxtChk();
        GrownTrans(nxt, chk, nxt1, chk1, nxt0, chk0);
      }
    }

    method IncreaseMaxDfas(more: nat)
      requires Valid()
      modifies this`base, this`def
      ensures Valid() && |base| == old(|base|) + more
    {
      hide Consistent, StackOk;
      ghost var base0, def0 := base, def;
      base := Reallocate(base, more);
      def := Reallocate(def, more);
      ConsistentLonger(nxt, chk, base0, def0, base, def, tblend, placed);
      StackLonger(onestate[..], onesym[..], onenext[..], onedef[..], onesp, pending, |base0|, |base|);
    }

    lemma ConsistentLonger(nxt: seq<int>, chk: seq<int>, base: seq<int>, def: seq<int>, base': seq<int>, def': seq<int>,
                           tblend: int, placed: map<int, Entry>)
      requires Consistent(nxt, chk, base, def, tblend, placed) && |base| == |def|
      requires |base'| == |def'| >= |base| && base'[..|base|] == base && def'[..|def|] == def
      ensures Consistent(nxt, chk, base', def', tblend, placed)
    {
      hide Frontier, PlacedAt;
      forall s | s in placed ensures Placed(nxt, chk, base', def', s, placed[s]) {
        assert Placed(nxt, chk, base, def, s, placed[s]);
        assert base'[s] == base'[..|base|][s] && def'[s] == def'[..|def|][s];
      }
    }

    lemma StackLonger(state: seq<int>, sym: seq<int>, next: seq<int>, ldef: seq<int>, onesp: int,
                      pending: map<int, Entry>, bound: int, bound': int)
      requires StackOk(state, sym, next, ldef, onesp, pending, bound) && bound <= bound'
      ensures StackOk(state, sym, next, ldef, onesp, pending, bound')
    {}

    static method FirstExplicit(state: seq<int>, numchars: int, deflink: int) returns (minec: int)
      requires 0 <= numchars < |state|
      ensures 1 <= minec <= numchars + 1
      ensures minec <= numchars ==> IsExplicit(state[minec], deflink)
      ensures forall c :: 1 <= c < minec ==> !IsExplicit(state[c], deflink)
    {
      minec := 1;
      while minec <= numchars
        invariant 1 <= minec <= numchars + 1
        invariant forall c :: 1 <= c < minec ==> !IsExplicit(state[c], deflink)
      {
        if state[minec] != SAME_TRANS {
          if state[minec] != 0 || deflink != JAMSTATE { break; }
        }
        minec := minec + 1;
      }
    }

    static method LastExplicit(state: seq<int>, numchars: int, deflink: int) returns (maxec: int)
      requires 0 <= numchars < |state|
      ensures 0 <= maxec <= numchars
      ensures maxec > 0 ==> IsExplicit(state[maxec], deflink)
      ensures forall c :: maxec < c <= numchars ==> !IsExplicit(state[c], deflink)
    {
      maxec := numchars;
      while maxec > 0
        invariant 0 <= maxec <= numchars
        invariant forall c :: maxec < c <= numchars ==> !IsExplicit(state[c], deflink)
      {
        if state[maxec] != SAME_TRANS {
          if state[maxec] != 0 || deflink != JAMSTATE { break; }
        }
        maxec := maxec - 1;
      }
    }

    lemma ExplicitAt(state: seq<int>, n: int, deflink: int)
      requires n < |state|
      ensures forall c :: 1 <= c <= n && IsExplicit(state[c], deflink) ==> c in Explicit(state, n, deflink)
    {}

    lemma SameArrays(nxt: seq<int>, chk: seq<int>)
      requires |nxt| == |chk|
      ensures Grown(nxt, chk, nxt, chk)
    {
      assert nxt[..|nxt|] == nxt && chk[..|chk|] == chk;
    }

    /** The first loop of that search: firstfree itself, or the first free slot behind it that gives a base. */
    method FirstAbove(minec: int) returns (baseaddr: int)
      requires Bounds(|chk|, tblend, firstfree) && Frontier(chk, tblend) && 1 <= minec <= CSIZE
      ensures minec <= baseaddr && firstfree <= baseaddr <= if tblend + 1 < minec then minec else tblend + 1
      ensures forall a :: firstfree <= a < baseaddr && minec <= a ==> Taken(chk, a)
    {
      baseaddr := firstfree;
      ghost var bound := if tblend + 1 < minec then minec else tblend + 1;
      while baseaddr < minec
        invariant firstfree <= baseaddr <= bound
        invariant forall a :: firstfree <= a < baseaddr && minec <= a ==> Taken(chk, a)
      {
        ghost var from := baseaddr;
        baseaddr := baseaddr + 1;
        while chk[baseaddr] != 0
          invariant from < baseaddr <= bound && forall a :: from < a < baseaddr ==> Taken(chk, a)
          decreases bound - baseaddr
        {
          baseaddr := baseaddr + 1;
        }
      }
    }

    lemma BlockedFrom(chk: seq<int>, ext: map<int, int>, minec: int, to: int)
      requires minec in ext && forall a :: firstfree <= a < to && minec <= a ==> Taken(chk, a)
      ensures forall a :: firstfree <= a < to && minec <= a ==> Blocked(chk, ext, minec, a)
    {
      forall a | firstfree <= a < to && minec <= a ensures Blocked(chk, ext, minec, a) {
        BlockedBy(chk, ext, minec, a, minec);
      }
    }

    /** The search of mkentry for a place in the interior: every slot the row needs is free at the address found. */
    method FitInterior(state: seq<int>, numchars: int, deflink: int, minec: int, maxec: int) returns (baseaddr: int)
      requires |nxt| == |chk| && Bounds(|chk|, tblend, firstfree) && Frontier(chk, tblend) && numchars <= CSIZE
      requires Spans(state, numchars, deflink, minec, maxec)
      modifies this`nxt, this`chk
      ensures Grown(nxt, chk, old(nxt), old(chk))
      ensures minec <= baseaddr && baseaddr + maxec - minec + 1 < |chk|
      ensures forall c :: minec <= c <= maxec && IsExplicit(state[c], deflink) ==> chk[baseaddr + c - minec] == 0
      ensures firstfree <= baseaddr && forall a :: firstfree <= a < baseaddr && minec <= a
                                         ==> Blocked(old(chk), Explicit(state, numchars, deflink), minec, a)
    {
      hide Blocked, Explicit, Grown, AllPlaced, FirstFree, Taken;
      ghost var nxt0, chk0, x := nxt, chk, Explicit(state, numchars, deflink);
      SameArrays(nxt, chk);
      ExplicitAt(state, numchars, deflink);
      baseaddr := FirstAbove(minec);
      ghost var bound := if tblend + 1 < minec then minec else tblend + 1;
      BlockedFrom(chk, x, minec, baseaddr);
      EnsureXpairs(baseaddr + maxec - minec + 1);
      GrownKeeps(nxt, chk, nxt0, chk0, base, def, placed, tblend);
      var i := minec;
      while i <= maxec
        invariant minec <= i <= maxec + 1 && minec <= baseaddr <= bound
        invariant |nxt| == |chk| && baseaddr + maxec - minec + 1 < |chk|
        invariant Grown(nxt, chk, nxt0, chk0) && Frontier(chk, tblend) && tblend + 1 < |chk|
        invariant forall c :: minec <= c < i && IsExplicit(state[c], deflink) ==> chk[baseaddr + c - minec] == 0
        invariant firstfree <= baseaddr
                  && forall a :: firstfree <= a < baseaddr && minec <= a ==> Blocked(chk0, x, minec, a)
        decreases bound - baseaddr, maxec - i
      {
        if state[i] != SAME_TRANS && (state[i] != 0 || deflink != JAMSTATE) && chk[baseaddr + i - minec] != 0 {
          TakenNow(chk, baseaddr + i - minec);
          TakenBefore(nxt, chk, nxt0, chk0, baseaddr + i - minec);
          BlockedBy(chk0, x, minec, baseaddr, i);
          ghost var from := baseaddr;
          baseaddr := NextFree(baseaddr);
          NextIs(chk, from, baseaddr);
          BlockedBetween(nxt, chk, nxt0, chk0, x, minec, from, baseaddr);
          ghost var nxt1, chk1 := nxt, chk;
          EnsureXpairs(baseaddr + maxec - minec + 1);
          GrownTrans(nxt, chk, nxt1, chk1, nxt0, chk0);
          GrownKeeps(nxt, chk, nxt1, chk1, base, def, placed, tblend);
          i := minec - 1;
        }
        i := i + 1;
      }
    }

    /** The next free slot behind start, or the end of the arrays. */
    method NextFree(start: int) returns (addr: int)
      requires Frontier(chk, tblend) && 0 <= start <= tblend && tblend + 1 < |chk|
      ensures start < addr <= tblend + 1 && FirstFree(chk, start + 1, addr)
    {
      addr := start + 1;
      while addr < |chk| && chk[addr] != 0
        invariant start < addr <= tblend + 1 && forall a :: start < a < addr ==> Taken(chk, a)
        decreases tblend + 1 - addr
      {
        addr := addr + 1;
      }
    }

    /** The writing loop of mkentry. */
    method WriteRow(state: seq<int>, numchars: int, statenum: int, deflink: int, minec: int, maxec: int, tblbase: int)
      requires |nxt| == |chk| && Spans(state, numchars, deflink, minec, maxec)
      requires 0 <= tblbase && tblbase + maxec < |chk|
      modifies this`nxt, this`chk
      ensures Written(nxt, chk, old(nxt), old(chk), statenum, tblbase, Explicit(state, numchars, deflink))
    {
      ghost var x := Explicit(state, numchars, deflink);
      ghost var nxt0, chk0 := nxt, chk;
      var i := minec;
      while i <= maxec
        invariant minec <= i <= maxec + 1 && |nxt| == |chk| == |nxt0|
        invariant forall p :: 0 <= p < |chk| ==>
                    chk[p] == (if p - tblbase in x && p - tblbase < i then statenum else chk0[p])
                    && nxt[p] == (if p - tblbase in x && p - tblbase < i then x[p - tblbase] else nxt0[p])
      {
        if state[i] != SAME_TRANS {
          if state[i] != 0 || deflink != JAMSTATE {
            nxt := nxt[tblbase + i := state[i]];
            chk := chk[tblbase + i := statenum];
          }
        }
        i := i + 1;
      }
    }

    lemma ApartPlaced(placed: map<int, Entry>, pending: map<int, Entry>, s: int, e: Entry)
      requires s !in placed && s !in pending && Apart(placed, pending)
      ensures Apart(placed[s := e], pending)
    {}

    lemma EntriesPlaced(placed: map<int, Entry>, pending: map<int, Entry>, s: int, e: Entry)
      requires s !in placed && s !in pending && Apart(placed, pending)
      ensures placed[s := e] + pending == (placed + pending)[s := e] == placed + pending[s := e]
      ensures Apart(placed[s := e], pending) && Apart(placed, pending[s := e])
    {}

    /** mkentry: the explicit part of state becomes the entry of statenum. When totaltrans counts a transition that
        has been taken out of state, and there is no other, what lies behind state in memory is read, and an entry for
        the class behind the last one is made of it. */
    method MkEntry(state: seq<int>, numchars: int, statenum: int, deflink: int, totaltrans: int, behind: int)
      requires Valid() && 0 <= numchars <= CSIZE && numchars < |state|
      requires 0 < statenum < |base| && statenum !in Entries()
      requires 0 <= totaltrans - |Explicit(state, numchars, deflink)| <= 1
      modifies Repr
      ensures Valid() && |base| == old(|base|)
      ensures Entries() == old(Entries())[statenum := MadeEntry(state, numchars, deflink, totaltrans, behind)]
      ensures totaltrans > 1
              ==> RowPlaced(old(chk), old(tblend), old(firstfree), chk, tblend, firstfree, base[statenum],
                    Explicit(state, numchars, deflink), totaltrans * 100 <= numchars * INTERIOR_FIT_PERCENTAGE)
    {
      hide *;
      ghost var e := MadeEntry(state, numchars, deflink, totaltrans, behind);
      Disjoint();
      EntriesPlaced(placed, pending, statenum, e);
      MadeCases(state, numchars, deflink, totaltrans, behind);
      if totaltrans == 0 {
        PlaceEmpty(statenum, deflink);
        EntriesNow(e, statenum, old(placed), pending);
        return;
      }
      var minec := FirstExplicit(state, numchars, deflink);
      FirstIn(state, numchars, deflink, minec);
      if totaltrans == 1 {
        MadeOne(state, numchars, deflink, behind, minec);
        Stack1(statenum, minec, if minec <= numchars then state[minec] else behind, deflink);
        return;
      }
      PlaceRow(state, numchars, statenum, deflink, totaltrans, minec);
      EntriesNow(e, statenum, old(placed), pending);
    }

    lemma Disjoint()
      requires Valid()
      ensures Apart(placed, pending) && Entries() == placed + pending && this in Repr
    {}

    lemma EntriesNow(e: Entry, s: int, placed0: map<int, Entry>, pending0: map<int, Entry>)
      requires placed == placed0[s := e] && pending == pending0
      requires s !in placed0 && s !in pending0 && Apart(placed0, pending0)
      ensures Entries() == (placed0 + pending0)[s := e]
    {
      EntriesPlaced(placed0, pending0, s, e);
    }

    lemma MadeCases(state: seq<int>, n: int, deflink: int, totaltrans: int, behind: int)
      requires n < |state| && 0 <= totaltrans - |Explicit(state, n, deflink)| <= 1
      ensures totaltrans == 0 ==> MadeEntry(state, n, deflink, totaltrans, behind) == Entry(map[], deflink)
      ensures totaltrans > 1
              ==> MadeEntry(state, n, deflink, totaltrans, behind) == Entry(Explicit(state, n, deflink), deflink)
                  && Explicit(state, n, deflink) != map[]
    {
      hide Explicit;
      ExplicitCases(state, n, deflink);
    }

    lemma MadeOne(state: seq<int>, n: int, deflink: int, behind: int, minec: int)
      requires n < |state| && |Explicit(state, n, deflink)| <= 1
      requires minec <= n ==> minec in Explicit(state, n, deflink) && Explicit(state, n, deflink)[minec] == state[minec]
      requires minec == n + 1 <==> Explicit(state, n, deflink) == map[]
      requires 1 <= minec <= n + 1
      ensures MadeEntry(state, n, deflink, 1, behind)
              == Entry(map[minec := if minec <= n then state[minec] else behind], deflink)
    {
      hide Explicit;
      ExplicitCases(state, n, deflink);
    }

    lemma FirstIn(state: seq<int>, n: int, deflink: int, minec: int)
      requires n < |state| && 1 <= minec <= n + 1
      requires minec <= n ==> IsExplicit(state[minec], deflink)
      requires forall c :: 1 <= c < minec ==> !IsExplicit(state[c], deflink)
      ensures minec == n + 1 <==> Explicit(state, n, deflink) == map[]
      ensures minec <= n ==> minec in Explicit(state, n, deflink)
                             && Explicit(state, n, deflink)[minec] == state[minec]
    {
      var x := Explicit(state, n, deflink);
      if minec == n + 1 {
        EmptyMap(x);
      } else {
        assert minec in x;
        assert x != map[];
      }
    }

    /** The part of mkentry for rows without explicit transitions. */
    method PlaceEmpty(statenum: int, deflink: int)
      requires Valid() && 0 < statenum < |base| && statenum !in Entries()
      modifies this`base, this`def, this`placed
      ensures Valid() && |base| == old(|base|) && placed == old(placed)[statenum := Entry(map[], deflink)]
    {
      hide Consistent, StackOk, Apart;
      ApartPlaced(placed, pending, statenum, Entry(map[], deflink));
      ConsistentEmpty(nxt, chk, base, def, tblend, placed, statenum, deflink);
      if deflink == JAMSTATE {
        base := base[statenum := JAMSTATE];
      } else {
        base := base[statenum := 0];
      }
      def := def[statenum := deflink];
      placed := placed[statenum := Entry(map[], deflink)];
    }

    /** The part of mkentry for rows with several explicit transitions. */
    method PlaceRow(state: seq<int>, numchars: int, statenum: int, deflink: int, totaltrans: int, minec: int)
      requires Valid() && 0 <= numchars <= CSIZE && numchars < |state|
      requires 0 < statenum < |base| && statenum !in Entries()
      requires 1 <= minec <= numchars && IsExplicit(state[minec], deflink)
      requires forall c :: 1 <= c < minec ==> !IsExplicit(state[c], deflink)
      modifies this`nxt, this`chk, this`base, this`def, this`tblend, this`firstfree, this`placed
      ensures Valid() && |base| == old(|base|)
      ensures placed == old(placed)[statenum := Entry(Explicit(state, numchars, deflink), deflink)]
      ensures RowPlaced(old(chk), old(tblend), old(firstfree), chk, tblend, firstfree, base[statenum],
                Explicit(state, numchars, deflink), totaltrans * 100 <= numchars * INTERIOR_FIT_PERCENTAGE)
    {
      hide Consistent, StackOk, Frontier, Fits, Written, Explicit, Spans, Apart, Suits, FirstFree, RowPlaced, Grown;
      ghost var chk0, tblend0, firstfree0 := chk, tblend, firstfree;
      ghost var x := Explicit(state, numchars, deflink);
      ghost var e := Entry(x, deflink);
      var maxec := LastExplicit(state, numchars, deflink);
      SpansFound(state, numchars, deflink, minec, maxec);
      ApartPlaced(placed, pending, statenum, e);
      var baseaddr := ChooseBase(state, numchars, deflink, totaltrans, minec, maxec);
      var tblbase := baseaddr - minec;
      var tbllast := tblbase + maxec;
      ConsistentFacts(nxt, chk, base, def, tblend, placed);
      ghost var nxt1, chk1, base1, def1 := nxt, chk, base, def;
      ghost var end := if tblend > tbllast then tblend else tbllast;
      base := base[statenum := tblbase];
      def := def[statenum := deflink];
      WriteRow(state, numchars, statenum, deflink, minec, maxec, tblbase);
      ConsistentRow(nxt, chk, nxt1, chk1, base1, def1, placed, statenum, tblbase, e, tblend, end);
      ConsistentFacts(nxt, chk, base, def, end, placed[statenum := e]);
      placed := placed[statenum := e];
      MoveOn(baseaddr, tbllast);
      Went(state, numchars, deflink, totaltrans, minec, maxec, chk0, tblend0, firstfree0, chk, tblend, firstfree,
          tblbase);
    }

    /** The end of mkentry: firstfree moves on if its slot is taken now, and tblend does. */
    method MoveOn(baseaddr: int, tbllast: int)
      requires 1 <= firstfree <= tblend + 1 && 0 <= tblend && baseaddr <= tbllast && tblend + 1 < |chk|
      requires tbllast + 1 < |chk| && Frontier(chk, if tblend > tbllast then tblend else tbllast)
      modifies this`tblend, this`firstfree
      ensures tblend == if old(tblend) > tbllast then old(tblend) else tbllast
      ensures if baseaddr == old(firstfree) then FirstFree(chk, old(firstfree) + 1, firstfree)
              else firstfree == old(firstfree)
      ensures 1 <= firstfree <= tblend + 1
    {
      hide Frontier, FirstFree;
      if baseaddr == firstfree { SkipTaken(if tblend > tbllast then tblend else tbllast); }
      tblend := if tblend > tbllast then tblend else tbllast;
    }

    lemma Went(state: seq<int>, numchars: int, deflink: int, totaltrans: int, minec: int, maxec: int, chk0: seq<int>,
               tblend0: int, firstfree0: int, chk1: seq<int>, tblend1: int, firstfree1: int, tb: int)
      requires Spans(state, numchars, deflink, minec, maxec)
      requires Suits(chk0, tblend0, firstfree0, Explicit(state, numchars, deflink), minec,
                 totaltrans * 100 <= numchars * INTERIOR_FIT_PERCENTAGE, tb + minec)
      requires tblend1 == if tblend0 > tb + maxec then tblend0 else tb + maxec
      requires if tb + minec == firstfree0 then FirstFree(chk1, firstfree0 + 1, firstfree1)
               else firstfree1 == firstfree0
      ensures RowPlaced(chk0, tblend0, firstfree0, chk1, tblend1, firstfree1, tb, Explicit(state, numchars, deflink),
                totaltrans * 100 <= numchars * INTERIOR_FIT_PERCENTAGE)
    {
      hide Suits, FirstFree;
      assert RowWent(chk0, tblend0, firstfree0, chk1, tblend1, firstfree1, tb, Explicit(state, numchars, deflink),
          minec, maxec, totaltrans * 100 <= numchars * INTERIOR_FIT_PERCENTAGE);
    }

    /** The placement half of mkentry: in the interior when the row is sparse, else behind the last used slot. */
    method ChooseBase(state: seq<int>, numchars: int, deflink: int, totaltrans: int, minec: int, maxec: int)
      returns (baseaddr: int)
      requires Consistent(nxt, chk, base, def, tblend, placed)
      requires Bounds(|chk|, tblend, firstfree) && numchars <= CSIZE
      requires Spans(state, numchars, deflink, minec, maxec)
      modifies this`nxt, this`chk
      ensures Consistent(nxt, chk, base, def, tblend, placed) && Bounds(|chk|, tblend, firstfree)
      ensures minec <= baseaddr && baseaddr - minec + maxec + 1 < |chk|
      ensures Fits(chk, baseaddr - minec, Explicit(state, numchars, deflink))
      ensures Suits(old(chk), tblend, firstfree, Explicit(state, numchars, deflink), minec,
                    totaltrans * 100 <= numchars * INTERIOR_FIT_PERCENTAGE, baseaddr)
    {
      hide Blocked;
      ghost var nxt0, chk0 := nxt, chk;
      SameArrays(nxt, chk);
      assert minec <= maxec;
      if totaltrans * 100 <= numchars * INTERIOR_FIT_PERCENTAGE {
        baseaddr := FitInterior(state, numchars, deflink, minec, maxec);
      } else {
        baseaddr := if tblend + 1 > minec then tblend + 1 else minec;
      }
      hide Consistent, Frontier, Explicit, Spans, Fits;
      ghost var nxt1, chk1 := nxt, chk;
      EnsureXpairs(baseaddr - minec + maxec + 1);
      GrownTrans(nxt, chk, nxt1, chk1, nxt0, chk0);
      ConsistentGrown(nxt, chk, nxt0, chk0, base, def, tblend, placed);
      GrownKeeps(nxt1, chk1, nxt0, chk0, base, def, placed, tblend);
      RowFits(state, numchars, deflink, minec, maxec, baseaddr, nxt, chk, nxt1, chk1, tblend);
      FitsNow(nxt, chk, nxt0, chk0, Explicit(state, numchars, deflink), minec, baseaddr);
    }

    lemma RowFits(state: seq<int>, numchars: int, deflink: int, minec: int, maxec: int, baseaddr: int,
                  nxt': seq<int>, chk': seq<int>, nxt: seq<int>, chk: seq<int>, tblend: int)
      requires Spans(state, numchars, deflink, minec, maxec) && Grown(nxt', chk', nxt, chk) && Frontier(chk, tblend)
      requires 1 <= minec <= baseaddr && baseaddr - minec + maxec < |chk'|
      requires baseaddr > tblend || (baseaddr + maxec - minec < |chk| &&
                 forall c :: minec <= c <= maxec && IsExplicit(state[c], deflink) ==> chk[baseaddr + c - minec] == 0)
      ensures Fits(chk', baseaddr - minec, Explicit(state, numchars, deflink))
    {
      var x := Explicit(state, numchars, deflink);
      forall c | c in x
        ensures 0 <= c && 0 < baseaddr - minec + c < |chk'| && chk'[baseaddr - minec + c] == 0
      {
        assert minec <= c <= maxec;
        GrownAt(nxt', chk', nxt, chk, baseaddr - minec + c);
      }
    }

    /** firstfree moves on to the next free slot. */
    method SkipTaken(ghost end: int)
      requires 1 <= firstfree <= end && end + 1 < |chk| && Frontier(chk, end)
      modifies this`firstfree
      ensures 1 <= firstfree <= end + 1 && FirstFree(chk, old(firstfree) + 1, firstfree)
    {
      ghost var from := firstfree;
      firstfree := firstfree + 1;
      while chk[firstfree] != 0
        invariant from < firstfree <= end + 1 && forall a :: from < a < firstfree ==> Taken(chk, a)
        decreases end + 1 - firstfree
      {
        firstfree := firstfree + 1;
      }
    }

    method Stack1(statenum: int, sym: int, nextstate: int, deflink: int)
      requires Valid() && 0 < statenum < |base| && statenum !in Entries() && 0 <= sym <= CSIZE + 1
      modifies Repr
      ensures Valid() && |base| == old(|base|)
      ensures Entries() == old(Entries())[statenum := Entry(map[sym := nextstate], deflink)]
      ensures if old(onesp) < ONE_STACK_SIZE - 1 then onesp == old(onesp) + 1 && placed == old(placed)
              else onesp == old(onesp) && pending == old(pending)
    {
      hide Consistent, StackOk, Frontier, Apart;
      EntriesPlaced(placed, pending, statenum, Entry(map[sym := nextstate], deflink));
      if onesp >= ONE_STACK_SIZE - 1 {
        Mk1Tbl(statenum, sym, nextstate, deflink);
      } else {
        StackRange(onestate[..], onesym[..], onenext[..], onedef[..], onesp, pending, |base|);
        StackPush(onestate[..], onesym[..], onenext[..], onedef[..], onesp, pending, |base|, statenum,
            sym, nextstate, deflink);
        onesp := onesp + 1;
        onestate[onesp] := statenum;
        onesym[onesp] := sym;
        onenext[onesp] := nextstate;
        onedef[onesp] := deflink;
        pending := pending[statenum := Entry(map[sym := nextstate], deflink)];
      }
    }

    /** The search loop of mk1tbl. Its growth step is never reached: a used slot is at most tblend,
        and the arrays always extend beyond tblend + 1. */
    method FindFree(sym: int)
      requires Bounds(|chk|, tblend, firstfree) && Frontier(chk, tblend) && 0 <= sym <= CSIZE + 1
      modifies this`firstfree
      ensures 1 <= firstfree < |chk| && sym <= firstfree && chk[firstfree] == 0
      ensures FirstFree(chk, if old(firstfree) < sym then sym else old(firstfree), firstfree)
    {
      if firstfree < sym { firstfree := sym; }
      ghost var from := firstfree;
      while chk[firstfree] != 0
        invariant 1 <= firstfree < |chk| && sym <= firstfree
        invariant from <= firstfree && forall a :: from <= a < firstfree ==> Taken(chk, a)
        decreases tblend - firstfree
      {
        firstfree := firstfree + 1;
        if firstfree >= |chk| { assert false; }
      }
    }

    /** mk1tbl: an entry with one transition goes to the first free slot from firstfree on. */
    method Mk1Tbl(state: int, sym: int, onenxt: int, onedflt: int)
      requires Valid() && 0 < state < |base| && state !in Entries() && 0 <= sym <= CSIZE + 1
      modifies this`nxt, this`chk, this`base, this`def, this`tblend, this`firstfree, this`placed
      ensures Valid() && |base| == old(|base|)
      ensures placed == old(placed)[state := Entry(map[sym := onenxt], onedflt)]
      ensures SlotPlaced(old(chk), old(tblend), old(firstfree), tblend, firstfree, base[state], sym)
    {
      hide *;
      ghost var e := Entry(map[sym := onenxt], onedflt);
      Parts();
      NewTo(state);
      ApartPlaced(placed, pending, state, e);
      ghost var end := FillSlot(state, sym, onenxt, onedflt);
      placed := placed[state := e];
      AdvanceEnd(end);
      SlotWent(old(chk), old(tblend), old(firstfree), tblend, firstfree, base[state], sym);
      Whole();
    }

    lemma SlotWent(chk: seq<int>, tblend0: int, firstfree0: int, tblend1: int, firstfree1: int, tb: int, sym: int)
      requires FirstFree(chk, if firstfree0 < sym then sym else firstfree0, tb + sym)
      requires if tb + sym > tblend0 then tblend1 == tb + sym && firstfree1 == tb + sym + 1
               else tblend1 == tblend0 && firstfree1 == tb + sym
      ensures SlotPlaced(chk, tblend0, firstfree0, tblend1, firstfree1, tb, sym)
    {}

    /** Valid taken apart, and put together again, for proofs that do not look into its parts. */
    lemma Parts()
      requires Valid()
      ensures Shape() && |base| == |def| && Bounds(|chk|, tblend, firstfree)
      ensures Consistent(nxt, chk, base, def, tblend, placed)
      ensures StackOk(onestate[..], onesym[..], onenext[..], onedef[..], onesp, pending, |base|)
      ensures Apart(placed, pending)
    {
      hide Consistent, StackOk, Apart;
    }

    lemma Whole()
      requires Shape() && |base| == |def| && Bounds(|chk|, tblend, firstfree)
      requires Consistent(nxt, chk, base, def, tblend, placed)
      requires StackOk(onestate[..], onesym[..], onenext[..], onedef[..], onesp, pending, |base|)
      requires Apart(placed, pending)
      ensures Valid()
    {
      hide Consistent, StackOk, Apart;
    }

    lemma NewTo(s: int)
      requires s !in Entries()
      ensures s !in placed && s !in pending
    {}

    /** The first half of mk1tbl: the transition goes into the first free slot. */
    method FillSlot(state: int, sym: int, onenxt: int, onedflt: int) returns (ghost end: int)
      requires |base| == |def| && Bounds(|chk|, tblend, firstfree) && Consistent(nxt, chk, base, def, tblend, placed)
      requires 0 < state < |base| && state !in placed && 0 <= sym <= CSIZE + 1
      modifies this`nxt, this`chk, this`base, this`def, this`firstfree
      ensures |base| == |def| == old(|base|) && |nxt| == |chk| && INITIAL_MAX_XPAIRS <= |chk|
      ensures 0 <= tblend && tblend + 1 < |chk| && 1 <= firstfree < |chk|
      ensures end == if firstfree > tblend then firstfree else tblend
      ensures Consistent(nxt, chk, base, def, end, placed[state := Entry(map[sym := onenxt], onedflt)])
      ensures base[state] == firstfree - sym
              && FirstFree(old(chk), if old(firstfree) < sym then sym else old(firstfree), firstfree)
    {
      hide Consistent, Frontier, FirstFree;
      ConsistentFacts(nxt, chk, base, def, tblend, placed);
      FindFree(sym);
      ghost var nxt1, chk1, base1, def1, e := nxt, chk, base, def, Entry(map[sym := onenxt], onedflt);
      end := if firstfree > tblend then firstfree else tblend;
      base := base[state := firstfree - sym];
      def := def[state := onedflt];
      chk := chk[firstfree := state];
      nxt := nxt[firstfree := onenxt];
      ConsistentSlot(nxt, chk, nxt1, chk1, base1, def1, placed, state, sym, firstfree, e, tblend, end);
    }

    /** The end of mk1tbl: a slot used behind tblend becomes the new tblend, with room for one more behind it. */
    method AdvanceEnd(ghost end: int)
      requires Consistent(nxt, chk, base, def, end, placed) && |nxt| == |chk|
      requires INITIAL_MAX_XPAIRS <= |chk| && 0 <= tblend && tblend + 1 < |chk| && 1 <= firstfree < |chk|
      requires end == if firstfree > tblend then firstfree else tblend
      modifies this`nxt, this`chk, this`tblend, this`firstfree
      ensures Consistent(nxt, chk, base, def, tblend, placed) && Bounds(|chk|, tblend, firstfree)
      ensures if old(firstfree) > old(tblend) then tblend == old(firstfree) && firstfree == old(firstfree) + 1
              else tblend == old(tblend) && firstfree == old(firstfree)
    {
      hide Consistent, Grown;
      if firstfree > tblend {
        tblend := firstfree;
        firstfree := firstfree + 1;
        if firstfree >= |chk| {
          ghost var nxt2, chk2 := nxt, chk;
          ExpandNxtChk();
          ConsistentGrown(nxt, chk, nxt2, chk2, base, def, tblend, placed);
        }
      }
    }

    /** ntod's last loop: the saved one-transition entries are placed, last one first. */
    method DrainStack()
      requires Valid()
      modifies Repr
      ensures Valid() && onesp == 0 && pending == map[] && |base| == old(|base|)
      ensures placed == old(Entries())
    {
      hide Consistent, StackOk;
      ghost var all := Entries();
      StackRange(onestate[..], onesym[..], onenext[..], onedef[..], onesp, pending, |base|);
      while onesp > 0
        invariant Valid() && |base| == old(|base|) && 0 <= onesp < ONE_STACK_SIZE
        invariant placed + pending == all
        decreases onesp
      {
        StackPop(onestate[..], onesym[..], onenext[..], onedef[..], onesp, pending, |base|);
        var top := onesp;
        ghost var s := onestate[top];
        onesp := onesp - 1;
        pending := pending - {s};
        Mk1Tbl(onestate[top], onesym[top], onenext[top], onedef[top]);
      }
      StackEmpty(onestate[..], onesym[..], onenext[..], onedef[..], pending, |base|);
    }

    /** mkdeftbl: behind everything else, the entry of the jam state. It answers every class itself:
        end-of-buffer (0) leads to eobState, all others to 0, the jam. */
    method MkDefTbl(jamstate: int, numecs: int, eobState: int) returns (jambase: int)
      requires Valid() && 0 < jamstate < |base| && jamstate !in placed && 0 <= numecs
      modifies this`nxt, this`chk, this`base, this`def, this`tblend, this`placed
      ensures Consistent(nxt, chk, base, def, tblend, placed) && |base| == |def| == old(|base|) && 0 <= tblend < |chk|
      ensures placed == old(placed)[jamstate := Entry(JamRow(numecs, eobState), 0)]
      ensures 0 < jambase == old(tblend) + 1 && base[jamstate] == jambase && jambase + numecs == tblend
      ensures forall s :: s in old(placed) ==> 0 < s < |base| && base[s] < jambase
    {
      hide Consistent, StackOk, Frontier, Apart, Grown, Written, Fits, JamRow;
      ghost var x := JamRow(numecs, eobState);
      BasesBelow(nxt, chk, base, def, tblend, placed);
      ghost var nxt0, chk0, base0, def0, tblend0 := nxt, chk, base, def, tblend;
      tblend := tblend + 1;
      ConsistentFacts(nxt, chk, base, def, tblend0, placed);
      EnsureXpairs(tblend + numecs);
      ConsistentGrown(nxt, chk, nxt0, chk0, base, def, tblend0, placed);
      ConsistentFacts(nxt, chk, base, def, tblend0, placed);
      ghost var nxt1, chk1 := nxt, chk;
      WriteJam(jamstate, numecs, eobState);
      jambase := tblend;
      base := base[jamstate := jambase];
      def := def[jamstate := 0];
      JamFits(chk1, tblend0, numecs, eobState);
      ConsistentRow(nxt, chk, nxt1, chk1, base0, def0, placed, jamstate, jambase, Entry(x, 0),
          tblend0, jambase + numecs);
      tblend := tblend + numecs;
      placed := placed[jamstate := Entry(x, 0)];
    }

    /** The writing part of mkdeftbl. */
    method WriteJam(jamstate: int, numecs: int, eobState: int)
      requires |nxt| == |chk| && 0 <= tblend && 0 <= numecs && tblend + numecs < |chk|
      modifies this`nxt, this`chk
      ensures Written(nxt, chk, old(nxt), old(chk), jamstate, tblend, JamRow(numecs, eobState))
    {
      ghost var x := JamRow(numecs, eobState);
      JamRowAt(numecs, eobState);
      ghost var nxt0, chk0 := nxt, chk;
      nxt := nxt[tblend := eobState];
      chk := chk[tblend := jamstate];
      var i := 1;
      while i <= numecs
        invariant 1 <= i <= numecs + 1 && |nxt| == |chk| == |nxt0|
        invariant forall p :: 0 <= p < |chk| ==>
                    chk[p] == (if p - tblend in x && p - tblend < i then jamstate else chk0[p])
                    && nxt[p] == (if p - tblend in x && p - tblend < i then x[p - tblend] else nxt0[p])
      {
        nxt := nxt[tblend + i := 0];
        chk := chk[tblend + i := jamstate];
        i := i + 1;
      }
    }
  }

  /** The entry of the jam state. */
  ghost function JamRow(numecs: int, eobState: int): map<int, int> {
    if numecs <= 0 then map[0 := eobState] else JamRow(numecs - 1, eobState)[numecs := 0]
  }

  lemma {:induction false} JamRowAt(numecs: int, eobState: int)
    ensures forall c :: c in JamRow(numecs, eobState) <==> 0 <= c && (c <= numecs || c == 0)
    ensures forall c :: c in JamRow(numecs, eobState) ==> JamRow(numecs, eobState)[c] == if c == 0 then eobState else 0
    decreases if numecs > 0 then numecs else 0
  {
    if numecs > 0 { JamRowAt(numecs - 1, eobState); }
  }

  lemma JamFits(chk: seq<int>, tblend: int, numecs: int, eobState: int)
    requires Frontier(chk, tblend) && 0 <= tblend && 0 <= numecs && tblend + 1 + numecs < |chk|
    ensures Fits(chk, tblend + 1, JamRow(numecs, eobState)) && JamRow(numecs, eobState) != map[]
    ensures forall c :: c in JamRow(numecs, eobState) ==> tblend + 1 + c <= tblend + 1 + numecs
  {
    JamRowAt(numecs, eobState);
    assert 0 in JamRow(numecs, eobState);
  }

  lemma EmptyMap(m: map<int, int>)
    requires forall c :: c !in m
    ensures m == map[]
  {
    var k: set<int> := m.Keys;
    assert forall c :: c !in k;
    assert k == {};
  }

  lemma BasesBelow(nxt: seq<int>, chk: seq<int>, base: seq<int>, def: seq<int>, tblend: int, placed: map<int, Entry>)
    requires Consistent(nxt, chk, base, def, tblend, placed) && 0 <= tblend
    ensures forall s :: s in placed ==> 0 < s < |base| && base[s] <= tblend
  {
    forall s | s in placed ensures 0 < s < |base| && base[s] <= tblend {
      assert Placed(nxt, chk, base, def, s, placed[s]);
      if forall c :: c !in placed[s].ext {
        EmptyMap(placed[s].ext);
      } else {
        var c :| c in placed[s].ext;
        assert chk[base[s] + c] != 0;
      }
    }
  }
}
