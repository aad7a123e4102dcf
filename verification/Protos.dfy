/** The queue of saved transition rows ("protos") that table compression compares new states with
    (tblcmp.c: mkprot, mv2front, tbldiff). The queue is a doubly linked list through protprev and
    protnext, most recently used slot first; the rows themselves lie in consecutive blocks of protsave. */
module Protos {
  import opened Flexdef

  /** No slot k can be opened: the queue has to drop its last element instead. */
  predicate Full(numecs: int, k: int) {
    k >= MSP || numecs * k >= PROT_SAVE_SIZE
  }

  lemma FullIs(numecs: int, k: int)
    ensures Full(numecs, k) <==> k >= MSP || numecs * k >= PROT_SAVE_SIZE
  {}

  /** The block of slot s starts behind this index of protsave. */
  function Block(numecs: int, s: int): int {
    numecs * (s - 1)
  }

  lemma BlockBounds(numecs: int, s: int, t: int)
    requires numecs >= 1 && 1 <= s < t
    ensures 0 <= Block(numecs, s) && Block(numecs, s) + numecs <= Block(numecs, t)
    ensures Block(numecs, s) + numecs == numecs * s
  {
    MulSplit(numecs, s, t - 1 - s);
    MulSplit(numecs, s - 1, 1);
  }

  lemma MulSplit(n: int, a: int, b: int)
    requires n >= 0 && b >= 0
    ensures n * (a + b) == n * a + n * b && n * b >= 0
  {
  }

  lemma FullMonotone(numecs: int, j: int, k: int)
    requires numecs >= 0 && j <= k && Full(numecs, j)
    ensures Full(numecs, k)
  {
    MulSplit(numecs, j, k - j);
  }

  /** The live slots, front to back, as the links record them. */
  ghost predicate Chain(order: seq<int>, first: int, last: int, prev: seq<int>, next: seq<int>) {
    && |prev| == |next| == MSP
    && (forall i :: 0 <= i < |order| ==> 1 <= order[i] < MSP)
    && (forall i, j :: 0 <= i < j < |order| ==> order[i] != order[j])
    && (if |order| == 0 then first == 0 && last == 1
        else first == order[0] && last == order[|order| - 1] && next[last] == 0)
    && (forall i :: 0 <= i < |order| - 1 ==> next[order[i]] == order[i + 1])
    && (forall i :: 1 <= i < |order| ==> prev[order[i]] == order[i - 1])
  }

  /** The live slots are the first |order| ones. */
  ghost predicate Compact(order: seq<int>) {
    forall s :: s in order ==> s <= |order|
  }

  lemma CompactOpen(order: seq<int>, slot: int)
    requires Compact(order) && slot == |order| + 1
    ensures Compact([slot] + order)
  {}

  /** order with its last slot taken off and put in front. */
  ghost function Reused(order: seq<int>): seq<int>
    requires |order| > 0
  {
    [order[|order| - 1]] + order[..|order| - 1]
  }

  lemma CompactReuse(order: seq<int>)
    requires Compact(order) && |order| > 0
    ensures Compact(Reused(order)) && |Reused(order)| == |order|
  {
    assert forall s :: s in Reused(order) ==> s in order;
  }

  lemma CompactMove(order: seq<int>, k: int)
    requires Compact(order) && 0 <= k < |order|
    ensures Compact(MovedToFront(order, k)) && |MovedToFront(order, k)| == |order|
    ensures forall s :: s in MovedToFront(order, k) <==> s in order
    ensures MovedToFront(order, k) == [order[k]] + Without(order, k)
    ensures k == 0 ==> MovedToFront(order, k) == order
  {
    assert order == order[..k] + [order[k]] + order[k + 1..];
    assert |MovedToFront(order, k)| == |order|;
    assert forall s :: s in MovedToFront(order, k) ==> s in order;
  }

  lemma ChainDropLast(order: seq<int>, first: int, last: int, prev: seq<int>, next: seq<int>)
    requires Chain(order, first, last, prev, next) && |order| >= 2
    ensures 1 <= last < MSP && 1 <= prev[last] < MSP && last == order[|order| - 1]
    ensures Chain(order[..|order| - 1], first, prev[last], prev, next[prev[last] := 0])
    ensures last !in order[..|order| - 1]
  {
    assert prev[order[|order| - 1]] == order[|order| - 2];
  }

  lemma ChainPushFront(order: seq<int>, first: int, last: int, prev: seq<int>, next: seq<int>, slot: int)
    requires Chain(order, first, last, prev, next) && 1 <= slot < MSP && slot !in order
    requires order == [] ==> slot == 1
    ensures 0 <= first < MSP
    ensures Chain([slot] + order, slot, last, if first == 0 then prev else prev[first := slot], next[slot := first])
  {
    var order', next' := [slot] + order, next[slot := first];
    forall i | 0 <= i < |order'| - 1 ensures next'[order'[i]] == order'[i + 1] {
      if i > 0 { assert next[order[i - 1]] == order[i]; }
    }
    forall i | 1 <= i < |order'|
      ensures (if first == 0 then prev else prev[first := slot])[order'[i]] == order'[i - 1]
    {
      if i > 1 { assert prev[order[i - 1]] == order[i - 2]; }
    }
  }

  /** order with the slot at position k moved to the front. */
  ghost function MovedToFront(order: seq<int>, k: int): seq<int>
    requires 0 <= k < |order|
  {
    [order[k]] + Without(order, k)
  }

  /** The slots without the one at position k. */
  ghost function Without(order: seq<int>, k: int): seq<int>
    requires 0 <= k < |order|
  {
    order[..k] + order[k + 1..]
  }

  lemma WithoutAt(order: seq<int>, k: int, i: int)
    requires 0 <= k < |order| && 0 <= i < |order| - 1
    ensures Without(order, k)[i] == order[if i < k then i else i + 1]
  {}

  lemma WithoutSlots(order: seq<int>, first: int, last: int, prev: seq<int>, next: seq<int>, k: int)
    requires Chain(order, first, last, prev, next) && 0 <= k < |order|
    ensures var rest := Without(order, k);
            (forall i :: 0 <= i < |rest| ==> 1 <= rest[i] < MSP && rest[i] != order[k])
            && (forall i, j :: 0 <= i < j < |rest| ==> rest[i] != rest[j])
  {
    var rest := Without(order, k);
    forall i | 0 <= i < |rest| ensures 1 <= rest[i] < MSP && rest[i] != order[k] { WithoutAt(order, k, i); }
    forall i, j | 0 <= i < j < |rest| ensures rest[i] != rest[j] {
      WithoutAt(order, k, i);
      WithoutAt(order, k, j);
    }
  }

  /** What the links of the slot at position k say. */
  lemma LinksAt(order: seq<int>, first: int, last: int, prev: seq<int>, next: seq<int>, k: int)
    requires Chain(order, first, last, prev, next) && 0 <= k < |order|
    ensures |prev| == |next| == MSP && 1 <= order[k] < MSP
    ensures next[order[k]] == if k + 1 < |order| then order[k + 1] else 0
    ensures k >= 1 ==> prev[order[k]] == order[k - 1] && order[k] != first
    ensures order[k] == last <==> k + 1 == |order|
    ensures first == order[0] && last == order[|order| - 1]
  {}

  lemma UnlinkNext(order: seq<int>, first: int, last: int, prev: seq<int>, next: seq<int>, k: int, i: int)
    requires Chain(order, first, last, prev, next) && 1 <= k < |order| && 0 <= i < |order| - 1
    ensures var x := order[if i < k then i else i + 1];
            1 <= x < MSP && 1 <= order[k - 1] < MSP && |next| == MSP
            && next[order[k - 1] := next[order[k]]][x]
               == (if i == |order| - 2 then 0 else order[if i + 1 < k then i + 1 else i + 2])
  {
    LinksAt(order, first, last, prev, next, k);
    LinksAt(order, first, last, prev, next, if i < k then i else i + 1);
    LinksAt(order, first, last, prev, next, k - 1);
    assert i >= k ==> order[k - 1] != order[i + 1];
    assert i < k - 1 ==> order[k - 1] != order[i];
  }

  lemma UnlinkPrev(order: seq<int>, first: int, last: int, prev: seq<int>, next: seq<int>, k: int, i: int)
    requires Chain(order, first, last, prev, next) && 1 <= k < |order| && 1 <= i < |order| - 1
    ensures var x, q := order[if i < k then i else i + 1], order[k];
            1 <= x < MSP && 1 <= q < MSP && |prev| == |next| == MSP && 0 <= next[q] < MSP
            && (if next[q] != 0 then prev[next[q] := prev[q]] else prev)[x] == order[if i - 1 < k then i - 1 else i]
  {
    LinksAt(order, first, last, prev, next, k);
    LinksAt(order, first, last, prev, next, if i < k then i else i + 1);
    if k + 1 < |order| {
      assert i < k ==> order[i] != order[k + 1];
      assert i > k ==> order[k + 1] != order[i + 1];
    }
  }

  lemma ChainUnlink(order: seq<int>, first: int, last: int, prev: seq<int>, next: seq<int>, k: int)
    requires Chain(order, first, last, prev, next) && 1 <= k < |order|
    ensures var q := order[k];
            1 <= q < MSP && 1 <= prev[q] < MSP && 0 <= next[q] < MSP && q != first
            && Chain(Without(order, k), first, if q == last then prev[q] else last,
                     if next[q] != 0 then prev[next[q] := prev[q]] else prev, next[prev[q] := next[q]])
            && q !in Without(order, k)
  {
    hide Chain;
    LinksAt(order, first, last, prev, next, k);
    LinksAt(order, first, last, prev, next, k - 1);
    if k + 1 < |order| { LinksAt(order, first, last, prev, next, k + 1); }
    var q, rest := order[k], Without(order, k);
    var next', prev' := next[prev[q] := next[q]], if next[q] != 0 then prev[next[q] := prev[q]] else prev;
    WithoutSlots(order, first, last, prev, next, k);
    WithoutAt(order, k, 0);
    WithoutAt(order, k, |rest| - 1);
    UnlinkNext(order, first, last, prev, next, k, |rest| - 1);
    forall i | 0 <= i < |rest| - 1 ensures next'[rest[i]] == rest[i + 1] {
      UnlinkNext(order, first, last, prev, next, k, i);
      WithoutAt(order, k, i);
      WithoutAt(order, k, i + 1);
    }
    forall i | 1 <= i < |rest| ensures prev'[rest[i]] == rest[i - 1] {
      UnlinkPrev(order, first, last, prev, next, k, i);
      WithoutAt(order, k, i);
      WithoutAt(order, k, i - 1);
    }
    ChainMade(rest, first, if q == last then prev[q] else last, prev', next');
  }

  lemma ChainMade(order: seq<int>, first: int, last: int, prev: seq<int>, next: seq<int>)
    requires |prev| == |next| == MSP && forall i :: 0 <= i < |order| ==> 1 <= order[i] < MSP
    requires forall i, j :: 0 <= i < j < |order| ==> order[i] != order[j]
    requires |order| > 0 && first == order[0] && last == order[|order| - 1] && next[last] == 0
    requires forall i :: 0 <= i < |order| - 1 ==> next[order[i]] == order[i + 1]
    requires forall i :: 1 <= i < |order| ==> prev[order[i]] == order[i - 1]
    ensures Chain(order, first, last, prev, next)
  {}

  lemma QueueStart(order: seq<int>, first: int, last: int, prev: seq<int>, next: seq<int>)
    requires Chain(order, first, last, prev, next)
    ensures first == if |order| > 0 then order[0] else 0
  {
  }

  lemma ChainAt(order: seq<int>, first: int, last: int, prev: seq<int>, next: seq<int>, k: int)
    requires Chain(order, first, last, prev, next) && 0 <= k < |order|
    ensures 1 <= order[k] < MSP && next[order[k]] == if k + 1 < |order| then order[k + 1] else 0
    ensures first == order[0] && (order[k] == first <==> k == 0)
  {
  }

  /** The entry for class c in the block of slot s. */
  ghost predicate SavedAt(save: seq<int>, numecs: int, s: int, c: int, v: int) {
    0 <= Block(numecs, s) + c < |save| && save[Block(numecs, s) + c] == v
  }

  /** Slot s stands for table entry tbl with common state com and full row row. */
  ghost predicate HoldsIn(tbls: seq<int>, coms: seq<int>, save: seq<int>, numecs: int,
                          s: int, tbl: int, com: int, row: seq<int>)
  {
    && 0 <= s < |tbls| && s < |coms| && |row| == numecs + 1
    && tbls[s] == tbl && coms[s] == com
    && forall c :: 1 <= c <= numecs ==> SavedAt(save, numecs, s, c, row[c])
  }

  /** Only the block of slot has changed, and it now holds row. */
  ghost predicate RowStored(save': seq<int>, save: seq<int>, numecs: int, slot: int, row: seq<int>) {
    && |save'| == |save| && |row| == numecs + 1 && 0 <= Block(numecs, slot) && Block(numecs, slot) + numecs < |save|
    && forall p :: 0 <= p < |save| ==>
         save'[p] == if Block(numecs, slot) < p <= Block(numecs, slot) + numecs then row[p - Block(numecs, slot)]
             else save[p]
  }

  lemma HoldsStored(tbls: seq<int>, coms: seq<int>, save: seq<int>, save': seq<int>, numecs: int,
                    slot: int, tbl: int, com: int, row: seq<int>)
    requires RowStored(save', save, numecs, slot, row) && 0 <= slot < |tbls| == |coms|
    ensures HoldsIn(tbls[slot := tbl], coms[slot := com], save', numecs, slot, tbl, com, row)
  {
    forall c | 1 <= c <= numecs ensures SavedAt(save', numecs, slot, c, row[c]) {
      assert save'[Block(numecs, slot) + c] == row[c];
    }
  }

  lemma HoldsKept(tbls: seq<int>, coms: seq<int>, save: seq<int>, save': seq<int>, numecs: int,
                  slot: int, tbl: int, com: int, row: seq<int>, s: int, tbl': int, com': int, row': seq<int>)
    requires RowStored(save', save, numecs, slot, row) && 1 <= slot < |tbls| == |coms|
    requires HoldsIn(tbls, coms, save, numecs, s, tbl', com', row') && s != slot && 1 <= s && numecs >= 1
    ensures HoldsIn(tbls[slot := tbl], coms[slot := com], save', numecs, s, tbl', com', row')
  {
    if s < slot { BlockBounds(numecs, s, slot); } else { BlockBounds(numecs, slot, s); }
  }

  /** A queued row: the table entry that stands for it, and its common state. */
  datatype Proto = Proto(link: int, com: int)

  ghost function ProtoAt(tbls: seq<int>, coms: seq<int>, s: int): Proto {
    if 0 <= s < |tbls| && s < |coms| then Proto(tbls[s], coms[s]) else Proto(0, 0)
  }

  /** The queue, front to back. */
  ghost function ItemsOf(order: seq<int>, tbls: seq<int>, coms: seq<int>): seq<Proto> {
    seq(|order|, k requires 0 <= k < |order| => ProtoAt(tbls, coms, order[k]))
  }

  /** The queue with p in front. Where there is no room for one more row, the last one is dropped. */
  ghost function Pushed(items: seq<Proto>, p: Proto, numecs: int): seq<Proto> {
    [p] + if Full(numecs, |items| + 1) && items != [] then items[..|items| - 1] else items
  }

  /** The queue with the element at position k moved to the front. */
  ghost function Fronted(items: seq<Proto>, k: int): seq<Proto>
    requires 0 <= k < |items|
  {
    [items[k]] + items[..k] + items[k + 1..]
  }

  ghost predicate Distinct(order: seq<int>) {
    forall i, j :: 0 <= i < j < |order| ==> order[i] != order[j]
  }

  /** The slots after mkprot: a new one is in front, or the last one has come to the front to be used again. */
  ghost predicate Renewed(order: seq<int>, order': seq<int>, numecs: int) {
    && order' != [] && Distinct(order')
    && if Full(numecs, |order| + 1) then order != [] && order' == Reused(order) else order' == [order'[0]] + order
  }

  lemma SamePlace(order: seq<int>, i: int, j: int)
    requires Distinct(order) && 0 <= i < |order| && 0 <= j < |order| && order[i] == order[j]
    ensures i == j
  {}

  lemma ItemsPushed(order: seq<int>, order': seq<int>, tbls: seq<int>, coms: seq<int>, link: int, com: int,
                    numecs: int)
    requires Renewed(order, order', numecs) && 0 <= order'[0] < |tbls| == |coms|
    ensures ItemsOf(order', tbls[order'[0] := link], coms[order'[0] := com])
            == Pushed(ItemsOf(order, tbls, coms), Proto(link, com), numecs)
  {
    hide Full;
    var items, items' := ItemsOf(order, tbls, coms), ItemsOf(order', tbls[order'[0] := link], coms[order'[0] := com]);
    forall k | 0 < k < |order'| ensures items'[k] == items[k - 1] {
      assert order'[k] == order[k - 1];
    }
    assert items' == [items'[0]] + items[..|order'| - 1];
  }

  lemma ItemsFronted(order: seq<int>, k: int, tbls: seq<int>, coms: seq<int>)
    requires 0 <= k < |order|
    ensures ItemsOf(MovedToFront(order, k), tbls, coms) == Fronted(ItemsOf(order, tbls, coms), k)
  {
    var order', items, items' := MovedToFront(order, k), ItemsOf(order, tbls, coms),
      ItemsOf(MovedToFront(order, k), tbls, coms);
    forall i | 0 < i < |order'| ensures items'[i] == Fronted(items, k)[i] {
      WithoutAt(order, k, i - 1);
    }
  }

  /** The classes on which two rows differ. */
  ghost function Differing(row: seq<int>, state: seq<int>, numecs: int): set<int>
    requires numecs < |state| && numecs < |row|
  {
    set c | 1 <= c <= numecs && row[c] != state[c]
  }

  /** ext is the difference of state against row: the entries of state where they differ, SAME_TRANS elsewhere. */
  ghost predicate IsDiff(ext: seq<int>, row: seq<int>, state: seq<int>, numecs: int) {
    && numecs < |ext| && numecs < |row| && numecs < |state|
    && forall c :: 1 <= c <= numecs ==> ext[c] == if row[c] == state[c] then SAME_TRANS else state[c]
  }

  class ProtoQueue {
    const numecs: int
    const protprev: array<int>
    const protnext: array<int>
    const prottbl: array<int>
    const protcomst: array<int>
    const protsave: array<int>
    var numprots: int
    var firstprot: int
    var lastprot: int
    ghost var order: seq<int>

    ghost const Repr: set<object> := {this, protprev, protnext, prottbl, protcomst, protsave}

    ghost predicate Shape()
      reads this
    {
      && 1 <= numecs <= CSIZE
      && protprev.Length == protnext.Length == prottbl.Length == protcomst.Length == MSP
      && protsave.Length == PROT_SAVE_SIZE
      && protprev != protnext && protprev != prottbl && protprev != protcomst && protprev != protsave
      && protnext != prottbl && protnext != protcomst && protnext != protsave
      && prottbl != protcomst && prottbl != protsave && protcomst != protsave
    }

    /** Slots 1..|order| are live, and a slot is only reused when no further one can be opened. */
    ghost predicate Valid()
      reads this, protprev, protnext
    {
      && Shape()
      && Chain(order, firstprot, lastprot, protprev[..], protnext[..])
      && Compact(order)
      && |order| <= numprots && !Full(numecs, |order|)
      && (numprots == |order| || Full(numecs, |order| + 1))
    }

    /** The queue, front to back. */
    ghost function Items(): seq<Proto>
      reads this, prottbl, protcomst
    {
      ItemsOf(order, prottbl[..], protcomst[..])
    }

    /** Slot s stands for table entry tbl with common state com and full row row. */
    ghost predicate Holds(s: int, tbl: int, com: int, row: seq<int>)
      reads this, prottbl, protcomst, protsave
    {
      HoldsIn(prottbl[..], protcomst[..], protsave[..], numecs, s, tbl, com, row)
    }

    constructor (numecs: int)
      requires 1 <= numecs <= CSIZE
      ensures Valid() && order == [] && this.numecs == numecs && fresh(Repr)
    {
      this.numecs := numecs;
      protprev := new int[MSP];
      protnext := new int[MSP];
      prottbl := new int[MSP];
      protcomst := new int[MSP];
      protsave := new int[PROT_SAVE_SIZE];
      numprots, firstprot, lastprot := 0, 0, 1;
      order := [];
    }

    lemma LiveSlot(s: int)
      requires Valid() && s in order
      ensures 1 <= s < MSP && numecs * s < PROT_SAVE_SIZE
    {
      MulSplit(numecs, s, |order| - s);
    }

    /** When no slot can be opened the queue holds at least two, so dropping the last leaves a queue. */
    lemma RoomToDrop()
      requires Valid() && Full(numecs, numprots + 1)
      ensures |order| >= 2 && Full(numecs, |order| + 1)
    {
      MulSplit(numecs, 0, |order| + 1);
      MulSplit(numecs, |order| + 1, if |order| <= 1 then 1 - |order| else 0);
      assert numecs * 2 < PROT_SAVE_SIZE;
      if numprots == |order| {} else {}
    }

    lemma RoomToOpen()
      requires Valid() && !Full(numecs, numprots + 1)
      ensures numprots == |order| && numprots + 1 !in order
    {
      if numprots > |order| { FullMonotone(numecs, |order| + 1, numprots + 1); }
    }

    /** The linking part of mkprot: a new slot, or the slot of the dropped last element, becomes the front. */
    method OpenSlot() returns (slot: int)
      requires Valid()
      modifies this, protprev, protnext
      ensures Valid() && order != [] && slot == order[0]
      ensures if old(Full(numecs, numprots + 1)) then |old(order)| > 0 && order == Reused(old(order))
              else order == [slot] + old(order) && slot !in old(order)
    {
      hide Chain, Compact, Full, Reused;
      ghost var rest := order;
      FullIs(numecs, numprots + 1);
      if Full(numecs, numprots + 1) { ReuseReady(); } else { OpenReady(); }
      numprots := numprots + 1;
      if numprots >= MSP || numecs * numprots >= PROT_SAVE_SIZE {
        slot := lastprot;
        lastprot := protprev[lastprot];
        protnext[lastprot] := 0;
        rest := order[..|order| - 1];
      } else {
        slot := numprots;
      }
      PushFront(slot, rest);
      order := [slot] + rest;
    }

    lemma ReuseReady()
      requires Valid() && Full(numecs, numprots + 1)
      ensures |order| >= 2 && Full(numecs, |order| + 1) && 1 <= lastprot < MSP && 1 <= protprev[lastprot] < MSP
      ensures Chain(order[..|order| - 1], firstprot, protprev[lastprot], protprev[..],
              protnext[..][protprev[lastprot] := 0])
      ensures lastprot !in order[..|order| - 1] && Reused(order) == [lastprot] + order[..|order| - 1]
      ensures Compact(Reused(order)) && |Reused(order)| == |order|
    {
      RoomToDrop();
      ChainDropLast(order, firstprot, lastprot, protprev[..], protnext[..]);
      CompactReuse(order);
    }

    lemma OpenReady()
      requires Valid() && !Full(numecs, numprots + 1)
      ensures numprots == |order| && numprots + 1 !in order && Compact([numprots + 1] + order)
              && 1 <= numprots + 1 < MSP
    {
      RoomToOpen();
      CompactOpen(order, numprots + 1);
    }

    /** The second half of mkprot's linking: slot is put in front of the queue rest. */
    method PushFront(slot: int, ghost rest: seq<int>)
      requires Shape() && Chain(rest, firstprot, lastprot, protprev[..], protnext[..])
      requires 1 <= slot < MSP && slot !in rest && (rest == [] ==> slot == 1)
      modifies this`firstprot, protprev, protnext
      ensures Chain([slot] + rest, firstprot, lastprot, protprev[..], protnext[..])
    {
      hide Chain;
      ghost var prev0, next0 := protprev[..], protnext[..];
      ChainPushFront(rest, firstprot, lastprot, prev0, next0, slot);
      protnext[slot] := firstprot;
      if firstprot != 0 { protprev[firstprot] := slot; }
      assert protprev[..] == if firstprot == 0 then prev0 else prev0[firstprot := slot];
      assert protnext[..] == next0[slot := firstprot];
      firstprot := slot;
    }

    /** mkprot: the row goes to the front of the queue. */
    method MkProt(state: seq<int>, statenum: int, comstate: int)
      requires Valid() && |state| == numecs + 1
      modifies Repr
      ensures Valid() && Renewed(old(order), order, numecs)
      ensures prottbl[..] == old(prottbl[..])[order[0] := statenum]
      ensures protcomst[..] == old(protcomst[..])[order[0] := comstate]
      ensures RowStored(protsave[..], old(protsave[..]), numecs, order[0], state)
      ensures Items() == Pushed(old(Items()), Proto(statenum, comstate), numecs)
    {
      hide Chain, Compact, Full, Reused, RowStored, ItemsOf, Pushed, Distinct;
      SameRoom();
      ghost var order0, tbls0, coms0 := order, prottbl[..], protcomst[..];
      var slot := OpenSlot();
      LiveSlot(slot);
      BlockBounds(numecs, slot, slot + 1);
      prottbl[slot] := statenum;
      protcomst[slot] := comstate;
      SaveRow(slot, state);
      Slots();
      ItemsPushed(order0, order, tbls0, coms0, statenum, comstate, numecs);
    }

    lemma Slots()
      requires Valid()
      ensures Distinct(order)
    {}

    /** The number of protos ever made stands for the length of the queue when it is asked for room. */
    lemma SameRoom()
      requires Valid()
      ensures Full(numecs, numprots + 1) <==> Full(numecs, |order| + 1)
    {
      hide Full;
      if Full(numecs, numprots + 1) { RoomToDrop(); } else { RoomToOpen(); }
    }

    /** The copying loop of mkprot. */
    method SaveRow(slot: int, state: seq<int>)
      requires Shape() && |state| == numecs + 1 && 1 <= slot && numecs * slot < PROT_SAVE_SIZE
      modifies protsave
      ensures RowStored(protsave[..], old(protsave[..]), numecs, slot, state)
    {
      BlockBounds(numecs, slot, slot + 1);
      var tblbase := numecs * (slot - 1);
      ghost var save0 := protsave[..];
      var i := 1;
      while i <= numecs
        invariant 1 <= i <= numecs + 1
        invariant forall p :: 0 <= p < PROT_SAVE_SIZE ==>
                    protsave[p] == if tblbase < p < tblbase + i then state[p - tblbase] else save0[p]
      {
        protsave[tblbase + i] := state[i];
        i := i + 1;
      }
    }

    /** mv2front: a slot moves to the front; the rows stay where they are. */
    method Mv2Front(qelm: int) returns (ghost k: int)
      requires Valid() && qelm in order
      modifies this, protprev, protnext
      ensures Valid()
      ensures 0 <= k < |old(order)| && old(order)[k] == qelm && order == MovedToFront(old(order), k)
      ensures Items() == Fronted(old(Items()), k)
    {
      hide Chain, MovedToFront, Compact, Full, Without, ItemsOf, Fronted;
      k :| 0 <= k < |order| && order[k] == qelm;
      ghost var prev0, next0 := protprev[..], protnext[..];
      ChainAt(order, firstprot, lastprot, prev0, next0, k);
      CompactMove(order, k);
      ItemsFronted(order, k, prottbl[..], protcomst[..]);
      if firstprot != qelm {
        Unlink(qelm, k);
        Relink(Without(order, k), qelm);
        ghost var prev1, next1 := protprev[..], protnext[..];
        protprev[qelm] := 0;
        protnext[qelm] := firstprot;
        protprev[firstprot] := qelm;
        assert protprev[..] == prev1[qelm := 0][firstprot := qelm] && protnext[..] == next1[qelm := firstprot];
        firstprot := qelm;
        order := MovedToFront(order, k);
      }
    }

    /** The first half of mv2front: qelm is taken out of the list. */
    method Unlink(qelm: int, ghost k: int)
      requires Shape() && Chain(order, firstprot, lastprot, protprev[..], protnext[..])
      requires 1 <= k < |order| && order[k] == qelm
      modifies this`lastprot, protprev, protnext
      ensures Chain(Without(order, k), firstprot, lastprot, protprev[..], protnext[..])
      ensures qelm !in Without(order, k) && 1 <= qelm < MSP
    {
      hide Chain, Without;
      ghost var prev0, next0 := protprev[..], protnext[..];
      ChainUnlink(order, firstprot, lastprot, prev0, next0, k);
      LinksAt(order, firstprot, lastprot, prev0, next0, k);
      if qelm == lastprot { lastprot := protprev[lastprot]; }
      protnext[protprev[qelm]] := protnext[qelm];
      if protnext[qelm] != 0 { protprev[protnext[qelm]] := protprev[qelm]; }
      assert protnext[..] == next0[prev0[qelm] := next0[qelm]];
      assert protprev[..] == if next0[qelm] != 0 then prev0[next0[qelm] := prev0[qelm]] else prev0;
    }

    /** The queue after the unlinked slot q has been put in front of rest. */
    lemma Relink(rest: seq<int>, q: int)
      requires Shape() && rest != [] && 1 <= q < MSP && q !in rest
      requires Chain(rest, firstprot, lastprot, protprev[..], protnext[..])
      ensures firstprot != 0 && firstprot != q && 0 <= firstprot < MSP
      ensures Chain([q] + rest, q, lastprot, protprev[..][q := 0][firstprot := q], protnext[..][q := firstprot])
    {
      ChainPushFront(rest, firstprot, lastprot, protprev[..], protnext[..], q);
    }

    /** tbldiff: ext becomes the difference of state against the saved row of slot pr. */
    method TblDiff(state: seq<int>, pr: int, ext: array<int>, ghost tbl: int, ghost com: int, ghost row: seq<int>)
      returns (numdiff: int)
      requires Shape() && |state| == numecs + 1 && 1 <= pr && numecs * pr < PROT_SAVE_SIZE
      requires HoldsIn(prottbl[..], protcomst[..], protsave[..], numecs, pr, tbl, com, row)
      requires ext !in Repr && ext.Length > numecs
      modifies ext
      ensures IsDiff(ext[..], row, state, numecs)
      ensures numdiff == |Differing(row, state, numecs)|
    {
      BlockBounds(numecs, pr, pr + 1);
      var protp, sp, ep := numecs * (pr - 1), 0, 0;
      numdiff := 0;
      var i := numecs;
      ghost var d: set<int> := {};
      while i > 0
        invariant 0 <= i <= numecs && sp == ep == numecs - i && protp == numecs * (pr - 1) + sp
        invariant forall c :: 1 <= c <= sp ==> ext[c] == if row[c] == state[c] then SAME_TRANS else state[c]
        invariant d == (set c | 1 <= c <= sp && row[c] != state[c]) && numdiff == |d|
      {
        protp, sp, ep := protp + 1, sp + 1, ep + 1;
        assert SavedAt(protsave[..], numecs, pr, sp, row[sp]);
        if protsave[protp] == state[sp] {
          ext[ep] := SAME_TRANS;
          assert (set c | 1 <= c <= sp && row[c] != state[c]) == d;
        } else {
          ext[ep] := state[sp];
          assert (set c | 1 <= c <= sp && row[c] != state[c]) == d + {sp};
          d := d + {sp};
          numdiff := numdiff + 1;
        }
        i := i - 1;
      }
    }
  }
}
