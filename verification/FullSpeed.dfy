/** The tables of full-speed scanners (tblcmp.c: find_table_space, place_state; gen.c: genctbl and the lookup of
    gen_next_match). Every state has a block of slots from its base on: slot c for class c, slot 0 for the end of
    the buffer and slot -1 for its action. Blocks overlap; only the class stored in a slot tells whose it is. */
module FullSpeed {
  import opened Flexdef

  /** What a slot is used for. */
  datatype Slot = Free | Action(s: int) | Eob(s: int) | Move(s: int, c: int)

  ghost predicate IsRow(row: seq<int>, numecs: nat) {
    |row| == numecs + 1 && forall c :: 1 <= c <= numecs ==> row[c] >= 0
  }

  /** The contents of slot p agree with its use. */
  ghost predicate OwnedAt(nxt: seq<int>, chk: seq<int>, base: seq<int>, rows: seq<seq<int>>, own: seq<Slot>,
                          numecs: nat, p: int) {
    && 0 <= p < |own| && |own| == |chk| == |nxt|
    && match own[p]
       case Free => chk[p] == 0
       case Action(s) => 0 <= s < |rows| && s < |base| && p == base[s] - 1 && chk[p] == 1
       case Eob(s) => 0 <= s < |rows| && s < |base| && p == base[s] && chk[p] == 1
       case Move(s, c) => 0 <= s < |rows| && s < |base| && 1 <= c <= numecs && c < |rows[s]| && p == base[s] + c
                          && rows[s][c] != 0 && chk[p] == c && nxt[p] == rows[s][c]
  }

  /** State s has all the slots it needs. */
  ghost predicate Placed(base: seq<int>, rows: seq<seq<int>>, own: seq<Slot>, numecs: nat, tblend: int, s: int) {
    && 0 <= s < |rows| && s < |base| && IsRow(rows[s], numecs)
    && 1 <= base[s] && base[s] + numecs <= tblend < |own|
    && own[base[s] - 1] == Action(s) && own[base[s]] == Eob(s)
    && forall c :: 1 <= c <= numecs && rows[s][c] != 0 ==> own[base[s] + c] == Move(s, c)
  }

  ghost predicate AllOwned(nxt: seq<int>, chk: seq<int>, base: seq<int>, rows: seq<seq<int>>, own: seq<Slot>,
                           numecs: nat) {
    |own| == |chk| == |nxt| && forall p :: 0 <= p < |own| ==> OwnedAt(nxt, chk, base, rows, own, numecs, p)
  }

  ghost predicate AllPlaced(base: seq<int>, rows: seq<seq<int>>, own: seq<Slot>, numecs: nat, tblend: int) {
    |rows| <= |base| && forall s :: 0 <= s < |rows| ==> Placed(base, rows, own, numecs, tblend, s)
  }

  ghost predicate Frontier(own: seq<Slot>, tblend: int) {
    forall p :: tblend < p < |own| && 0 <= p ==> own[p] == Free
  }

  /** The slots that a new state would take are free. */
  ghost predicate Room(chk: seq<int>, state: seq<int>, numecs: nat, i: int) {
    && |state| == numecs + 1 && 1 <= i && i + numecs < |chk| && chk[i - 1] == 0 && chk[i] == 0
    && forall c :: 1 <= c <= numecs && state[c] != 0 ==> chk[i + c] == 0
  }

  /** One of the slots that a new state at i would take is taken. */
  ghost predicate Occupied(chk: seq<int>, state: seq<int>, numecs: nat, i: int) {
    TakenAt(chk, i - 1) || TakenAt(chk, i)
    || exists c :: 1 <= c <= numecs && c < |state| && state[c] != 0 && TakenAt(chk, i + c)
  }

  ghost predicate TakenAt(chk: seq<int>, p: int) {
    0 <= p < |chk| && chk[p] != 0
  }

  /** chk has grown by free slots. */
  ghost predicate Extended(chk: seq<int>, chk': seq<int>) {
    |chk| <= |chk'| && chk'[..|chk|] == chk && forall p :: |chk| <= p < |chk'| ==> chk'[p] == 0
  }

  lemma ExtendedSelf(chk: seq<int>)
    ensures Extended(chk, chk)
  {}

  lemma ExtendedOn(chk0: seq<int>, chk1: seq<int>, chk2: seq<int>)
    requires Extended(chk0, chk1) && Extended(chk1, chk2)
    ensures Extended(chk0, chk2)
  {
    assert chk2[..|chk0|] == chk2[..|chk1|][..|chk0|];
    forall p | |chk0| <= p < |chk1| ensures chk2[p] == 0 { assert chk2[..|chk1|][p] == chk1[p]; }
  }

  lemma TakenBefore(chk: seq<int>, chk': seq<int>, p: int)
    requires Extended(chk, chk') && TakenAt(chk', p)
    ensures TakenAt(chk, p)
  {
    if p < |chk| { assert chk'[..|chk|][p] == chk'[p]; }
  }

  lemma OccupiedBefore(chk: seq<int>, chk': seq<int>, state: seq<int>, numecs: nat, i: int)
    requires Extended(chk, chk') && Occupied(chk', state, numecs, i)
    ensures Occupied(chk, state, numecs, i)
  {
    hide Extended, TakenAt;
    if TakenAt(chk', i - 1) { TakenBefore(chk, chk', i - 1); }
    if TakenAt(chk', i) { TakenBefore(chk, chk', i); }
    if c :| 1 <= c <= numecs && c < |state| && state[c] != 0 && TakenAt(chk', i + c) { TakenBefore(chk, chk', i + c); }
  }

  /** Where find_table_space starts: near the end for a state with many transitions, at firstfree otherwise. */
  ghost function SearchFrom(numtrans: int, tblend: int, firstfree: int, numecs: nat): int {
    if numtrans <= MAX_XTIONS_FULL_INTERIOR_FIT then firstfree else if tblend < 2 then 1 else tblend - numecs
  }

  /** Position i is the first one from the start of the search on that has the slots for the state. */
  ghost predicate FirstPlace(chk: seq<int>, state: seq<int>, numtrans: int, tblend: int, firstfree: int, numecs: nat,
                             i: int)
  {
    var start := SearchFrom(numtrans, tblend, firstfree, numecs);
    start <= i && !Occupied(chk, state, numecs, i) && forall j :: start <= j < i ==> Occupied(chk, state, numecs, j)
  }

  lemma RoomFree(chk: seq<int>, chk': seq<int>, state: seq<int>, numecs: nat, i: int)
    requires Extended(chk, chk') && Room(chk', state, numecs, i)
    ensures !Occupied(chk, state, numecs, i)
  {
    forall p | 0 <= p < |chk| ensures chk'[p] == chk[p] { assert chk'[..|chk|][p] == chk[p]; }
  }

  /** The use of the slots after a new state has been placed at i, as far as class k. */
  ghost function Claimed(own: seq<Slot>, state: seq<int>, s: int, i: int, k: int): (own': seq<Slot>)
    requires 1 <= k <= |state|
    ensures |own'| == |own|
  {
    seq(|own|, p requires 0 <= p < |own| =>
      if p == i - 1 then Action(s) else if p == i then Eob(s)
      else if i < p < i + k && state[p - i] != 0 then Move(s, p - i) else own[p])
  }

  /** chk and nxt after a new state has been written at i, as far as class k. */
  ghost predicate Written(nxt': seq<int>, chk': seq<int>, nxt: seq<int>, chk: seq<int>, state: seq<int>, i: int,
                          k: int) {
    && |nxt'| == |chk'| == |nxt| == |chk| && 1 <= k <= |state|
    && forall p :: 0 <= p < |chk| ==>
         (if i < p < i + k && state[p - i] != 0 then chk'[p] == p - i && nxt'[p] == state[p - i]
          else chk'[p] == (if p == i - 1 || p == i then 1 else chk[p]) && nxt'[p] == nxt[p])
  }

  lemma WrittenStart(nxt: seq<int>, chk: seq<int>, state: seq<int>, i: int)
    requires |nxt| == |chk| && 1 <= i < |chk| && |state| >= 1
    ensures Written(nxt, chk[i - 1 := 1][i := 1], nxt, chk, state, i, 1)
  {}

  lemma WrittenNext(nxt': seq<int>, chk': seq<int>, nxt: seq<int>, chk: seq<int>, state: seq<int>, i: int, k: int)
    requires Written(nxt', chk', nxt, chk, state, i, k) && 1 <= k < |state| && 1 <= i && i + k < |chk|
    ensures if state[k] != 0 then Written(nxt'[i + k := state[k]], chk'[i + k := k], nxt, chk, state, i, k + 1)
            else Written(nxt', chk', nxt, chk, state, i, k + 1)
  {}

  /** A state placed in free slots leaves the other states where they are. */
  lemma PlacedNew(nxt': seq<int>, chk': seq<int>, nxt: seq<int>, chk: seq<int>, base: seq<int>, rows: seq<seq<int>>,
                  own: seq<Slot>, numecs: nat, tblend: int, tblend': int, state: seq<int>, i: int)
    requires AllOwned(nxt, chk, base, rows, own, numecs) && AllPlaced(base, rows, own, numecs, tblend)
             && IsRow(state, numecs)
    requires Room(chk, state, numecs, i) && Written(nxt', chk', nxt, chk, state, i, numecs + 1) && |rows| < |base|
    requires Frontier(own, tblend) && tblend' == (if i + numecs > tblend then i + numecs else tblend) && tblend < |chk|
    ensures var own' := Claimed(own, state, |rows|, i, numecs + 1);
            && AllOwned(nxt', chk', base[|rows| := i], rows + [state], own', numecs)
            && AllPlaced(base[|rows| := i], rows + [state], own', numecs, tblend') && Frontier(own', tblend')
  {
    var own', base', rows' := Claimed(own, state, |rows|, i, numecs + 1), base[|rows| := i], rows + [state];
    forall p | 0 <= p < |own'| ensures OwnedAt(nxt', chk', base', rows', own', numecs, p) {
      assert OwnedAt(nxt, chk, base, rows, own, numecs, p);
    }
    hide Written, AllOwned;
    forall s | 0 <= s < |rows'| ensures Placed(base', rows', own', numecs, tblend', s) {
      if s < |rows| { PlacedStill(nxt, chk, base, rows, own, numecs, tblend, tblend', state, i, s); }
    }
  }

  lemma PlacedStill(nxt: seq<int>, chk: seq<int>, base: seq<int>, rows: seq<seq<int>>, own: seq<Slot>,
                    numecs: nat, tblend: int, tblend': int, state: seq<int>, i: int, s: int)
    requires AllOwned(nxt, chk, base, rows, own, numecs) && Placed(base, rows, own, numecs, tblend, s)
    requires Room(chk, state, numecs, i) && |rows| < |base| && tblend <= tblend' < |own|
    ensures Placed(base[|rows| := i], rows + [state], Claimed(own, state, |rows|, i, numecs + 1), numecs, tblend', s)
  {
    var own' := Claimed(own, state, |rows|, i, numecs + 1);
    forall p | 0 <= p < |own| && own[p] != Free ensures own'[p] == own[p] {
      assert OwnedAt(nxt, chk, base, rows, own, numecs, p);
    }
    forall c | 1 <= c <= numecs && rows[s][c] != 0 ensures own'[base[s] + c] == Move(s, c) {
      assert own[base[s] + c] == Move(s, c);
    }
  }

  lemma FreeBehind(nxt: seq<int>, chk: seq<int>, base: seq<int>, rows: seq<seq<int>>, own: seq<Slot>, numecs: nat,
                   tblend: int)
    requires AllOwned(nxt, chk, base, rows, own, numecs) && Frontier(own, tblend)
    ensures forall p :: tblend < p < |chk| && 0 <= p ==> chk[p] == 0
  {
    forall p | tblend < p < |chk| && 0 <= p ensures chk[p] == 0 {
      assert OwnedAt(nxt, chk, base, rows, own, numecs, p);
    }
  }

  class FullTables {
    const numecs: nat
    var nxt: seq<int>
    var chk: seq<int>
    var base: seq<int>
    var tblend: int
    var firstfree: int
    ghost var rows: seq<seq<int>>
    ghost var own: seq<Slot>

    ghost predicate Bounds()
      reads this
    {
      1 <= numecs <= CSIZE && INITIAL_MAX_XPAIRS <= |chk| == |nxt| == |own| && 0 <= tblend < |chk|
      && (|rows| > 0 ==> tblend > numecs) && (|rows| == 0 ==> tblend == 0)
    }

    ghost predicate Stored()
      reads this
    {
      && Bounds() && AllOwned(nxt, chk, base, rows, own, numecs) && AllPlaced(base, rows, own, numecs, tblend)
         && Frontier(own, tblend)
    }

    ghost predicate Valid()
      reads this
    {
      Stored() && 1 <= firstfree <= tblend + 1
    }

    constructor (numecs: nat)
      requires 1 <= numecs <= CSIZE
      ensures Valid() && rows == [] && |base| == INITIAL_MAX_DFAS && this.numecs == numecs
    {
      this.numecs := numecs;
      nxt, chk := seq(INITIAL_MAX_XPAIRS, _ => 0), seq(INITIAL_MAX_XPAIRS, _ => 0);
      base := seq(INITIAL_MAX_DFAS, _ => 0);
      tblend, firstfree := 0, 1;
      rows, own := [], seq(INITIAL_MAX_XPAIRS, _ => Free);
    }

    /** expand_nxt_chk. */
    method ExpandNxtChk()
      requires Stored()
      modifies this`nxt, this`chk, this`own
      ensures Stored() && |chk| == old(|chk|) + MAX_XPAIRS_INCREMENT && chk[..old(|chk|)] == old(chk)
              && nxt[..old(|nxt|)] == old(nxt)
      ensures own[..old(|own|)] == old(own) && Extended(old(chk), chk)
    {
      hide Placed, OwnedAt;
      ghost var nxt0, chk0, own0 := nxt, chk, own;
      nxt := nxt + seq(MAX_XPAIRS_INCREMENT, _ => 0);
      chk := chk + seq(MAX_XPAIRS_INCREMENT, _ => 0);
      own := own + seq(MAX_XPAIRS_INCREMENT, _ => Free);
      forall p | 0 <= p < |own| ensures OwnedAt(nxt, chk, base, rows, own, numecs, p) {
        OwnedMore(nxt0, chk0, base, rows, own0, numecs, MAX_XPAIRS_INCREMENT, p);
      }
      forall s | 0 <= s < |rows| ensures Placed(base, rows, own, numecs, tblend, s) {
        PlacedMore(base, rows, own0, numecs, tblend, MAX_XPAIRS_INCREMENT, s);
      }
    }

    /** The start of the search loop: from i on, the first two slots in a row that are free, with a block behind
        them. */
    method FreePair(i0: int) returns (i: int)
      requires Stored() && 1 <= i0 <= tblend + 2
      modifies this`nxt, this`chk, this`own
      ensures Stored() && i0 <= i <= tblend + 2 && i + numecs < |chk| && chk[i - 1] == 0 && chk[i] == 0
      ensures Extended(old(chk), chk)
              && forall j :: i0 <= j < i ==> TakenAt(old(chk), j - 1) || TakenAt(old(chk), j)
    {
      hide AllOwned, AllPlaced, Frontier, Extended, TakenAt;
      i := i0;
      Lengthen(i);
      while true
        invariant Stored() && i0 <= i <= tblend + 2 && i + numecs < |chk| && Extended(old(chk), chk)
        invariant forall j :: i0 <= j < i ==> TakenAt(old(chk), j - 1) || TakenAt(old(chk), j)
        decreases tblend + 2 - i
      {
        ghost var chk1 := chk;
        FreeBehind(nxt, chk, base, rows, own, numecs, tblend);
        if chk[i - 1] == 0 {
          if chk[i] == 0 { break; }
          WasTaken(old(chk), chk, i);
          i := i + 2;
        } else {
          WasTaken(old(chk), chk, i - 1);
          i := i + 1;
        }
        Lengthen(i);
        ExtendedOn(old(chk), chk1, chk);
      }
    }

    lemma WasTaken(chk0: seq<int>, chk1: seq<int>, p: int)
      requires Extended(chk0, chk1) && 0 <= p < |chk1| && chk1[p] != 0
      ensures TakenAt(chk0, p)
    {
      TakenBefore(chk0, chk1, p);
    }

    /** The loop around expand_nxt_chk: there is a block behind i. */
    method Lengthen(i: int)
      requires Stored() && 1 <= i
      modifies this`nxt, this`chk, this`own
      ensures Stored() && i + numecs < |chk| && Extended(old(chk), chk)
    {
      hide AllOwned, AllPlaced, Frontier, Extended;
      ExtendedSelf(chk);
      while i + numecs >= |chk|
        invariant Stored() && Extended(old(chk), chk)
        decreases i + numecs - |chk|
      {
        ghost var chk1 := chk;
        ExpandNxtChk();
        ExtendedOn(old(chk), chk1, chk);
      }
    }

    /** The inner loop: are the slots of the transitions free? */
    method Suits(state: seq<int>, i: int) returns (suits: bool)
      requires |state| == numecs + 1 && 1 <= i && i + numecs < |chk|
      ensures suits <==> forall c :: 1 <= c <= numecs && state[c] != 0 ==> chk[i + c] == 0
    {
      var c := 1;
      while c <= numecs
        invariant 1 <= c <= numecs + 1
        invariant forall d :: 1 <= d < c && state[d] != 0 ==> chk[i + d] == 0
      {
        if state[c] != 0 && chk[i + c] != 0 { return false; }
        c := c + 1;
      }
      return true;
    }

    /** find_table_space: a place with room for the state, its end-of-buffer slot and its action slot. */
    method FindTableSpace(state: seq<int>, numtrans: int) returns (i: int)
      requires Valid() && IsRow(state, numecs)
      modifies this`nxt, this`chk, this`own, this`firstfree
      ensures Stored() && Room(chk, state, numecs, i) && 1 <= firstfree
              && (firstfree <= i + 1 || firstfree <= tblend + 1)
      ensures Extended(old(chk), chk) && FirstPlace(old(chk), state, numtrans, tblend, old(firstfree), numecs, i)
      ensures firstfree == if numtrans <= MAX_XTIONS_FULL_INTERIOR_FIT then i + 1 else old(firstfree)
    {
      hide AllOwned, AllPlaced, Frontier, Extended, Occupied, Room;
      ExtendedSelf(chk);
      if numtrans > MAX_XTIONS_FULL_INTERIOR_FIT {
        if tblend < 2 {
          NothingStored(nxt, chk, base, rows, own, numecs);
          EmptyRoom(state);
          RoomFree(chk, chk, state, numecs, 1);
          return 1;
        }
        i := tblend - numecs;
      } else {
        i := firstfree;
      }
      while true
        invariant Stored() && 1 <= i <= tblend + 2 && 1 <= firstfree && (firstfree <= i || firstfree <= tblend + 1)
        invariant Extended(old(chk), chk) && SearchFrom(numtrans, tblend, old(firstfree), numecs) <= i
        invariant numtrans > MAX_XTIONS_FULL_INTERIOR_FIT ==> firstfree == old(firstfree)
        invariant forall j :: SearchFrom(numtrans, tblend, old(firstfree), numecs) <= j < i
                    ==> Occupied(old(chk), state, numecs, j)
        decreases tblend + 3 - i
      {
        ghost var i1, chk1 := i, chk;
        i := FreePair(i);
        PairsTaken(old(chk), chk1, chk, state, numecs, i1, i);
        if numtrans <= MAX_XTIONS_FULL_INTERIOR_FIT { firstfree := i + 1; }
        var suits := Suits(state, i);
        if suits {
          RoomHere(chk, state, numecs, i);
          RoomFree(old(chk), chk, state, numecs, i);
          break;
        }
        SomeTaken(chk, state, numecs, i);
        OccupiedBefore(old(chk), chk, state, numecs, i);
        FreeBehind(nxt, chk, base, rows, own, numecs, tblend);
        i := i + 1;
      }
    }

    lemma EmptyRoom(state: seq<int>)
      requires Stored() && IsRow(state, numecs) && tblend < 2 && forall p :: 0 <= p < |chk| ==> chk[p] == 0
      ensures Room(chk, state, numecs, 1)
    {
      hide AllOwned, AllPlaced, Frontier;
    }

    lemma RoomHere(chk: seq<int>, state: seq<int>, numecs: nat, i: int)
      requires |state| == numecs + 1 && 1 <= i && i + numecs < |chk| && chk[i - 1] == 0 && chk[i] == 0
      requires forall c :: 1 <= c <= numecs && state[c] != 0 ==> chk[i + c] == 0
      ensures Room(chk, state, numecs, i)
    {}

    lemma SomeTaken(chk: seq<int>, state: seq<int>, numecs: nat, i: int)
      requires |state| == numecs + 1 && 1 <= i && i + numecs < |chk|
      requires !(forall c :: 1 <= c <= numecs && state[c] != 0 ==> chk[i + c] == 0)
      ensures Occupied(chk, state, numecs, i)
    {
      var c :| 1 <= c <= numecs && state[c] != 0 && chk[i + c] != 0;
      assert TakenAt(chk, i + c);
    }

    lemma PairsTaken(chk0: seq<int>, chk1: seq<int>, chk2: seq<int>, state: seq<int>, numecs: nat, i1: int, i2: int)
      requires Extended(chk0, chk1) && Extended(chk1, chk2)
      requires forall j :: i1 <= j < i2 ==> TakenAt(chk1, j - 1) || TakenAt(chk1, j)
      ensures Extended(chk0, chk2) && forall j :: i1 <= j < i2 ==> Occupied(chk0, state, numecs, j)
    {
      ExtendedOn(chk0, chk1, chk2);
      hide Extended, TakenAt;
      forall j | i1 <= j < i2 ensures Occupied(chk0, state, numecs, j) {
        OccupiedBefore(chk0, chk1, state, numecs, j);
      }
    }

    /** place_state: state becomes the statenum'th row. */
    method PlaceState(state: seq<int>, statenum: int, transnum: int)
      requires Valid() && IsRow(state, numecs) && statenum == |rows| < |base|
      modifies this
      ensures Valid() && rows == old(rows) + [state] && |base| == old(|base|)
      ensures forall s :: 0 <= s < |old(rows)| ==> base[s] == old(base)[s]
      ensures FirstPlace(old(chk), state, transnum, old(tblend), old(firstfree), numecs, base[statenum])
      ensures firstfree == if transnum <= MAX_XTIONS_FULL_INTERIOR_FIT then base[statenum] + 1 else old(firstfree)
    {
      hide AllOwned, AllPlaced, Frontier, Written, Room, Claimed, FirstPlace, Extended;
      var position := FindTableSpace(state, transnum);
      RoomBounds(chk, state, numecs, position);
      ghost var nxt0, chk0, base0, own0, tblend0 := nxt, chk, base, own, tblend;
      base := base[statenum := position];
      chk := chk[position - 1 := 1];
      chk := chk[position := 1];
      WrittenStart(nxt0, chk0, state, position);
      var i := 1;
      while i <= numecs
        modifies this`nxt, this`chk
        invariant 1 <= i <= numecs + 1 && |chk| == |nxt| == |chk0| && Written(nxt, chk, nxt0, chk0, state, position, i)
      {
        WrittenNext(nxt, chk, nxt0, chk0, state, position, i);
        if state[i] != 0 {
          chk := chk[position + i := i];
          nxt := nxt[position + i := state[i]];
        }
        i := i + 1;
      }
      if position + numecs > tblend { tblend := position + numecs; }
      PlacedNew(nxt, chk, nxt0, chk0, base0, rows, own0, numecs, tblend0, tblend, state, position);
      own := Claimed(own0, state, |rows|, position, numecs + 1);
      rows := rows + [state];
    }

    /** The room that genctbl needs for the state that stands for the end of the buffer. */
    method MakeRoom(lastdfa: int)
      requires Valid() && |rows| == lastdfa + 1 && 0 <= lastdfa
      modifies this`nxt, this`chk, this`own, this`base
      ensures Valid() && tblend + 2 < |chk| && lastdfa + 1 < |base| && base[..|rows|] == old(base)[..|rows|]
    {
      hide AllOwned, AllPlaced, Frontier, Placed, OwnedAt;
      while tblend + 2 >= |chk|
        modifies this`nxt, this`chk, this`own
        invariant Valid()
        decreases tblend + 3 - |chk|
      {
        ExpandNxtChk();
      }
      GrowBase(lastdfa + 1);
    }

    /** increase_max_dfas, as far as base is concerned: there is room for state n. */
    method GrowBase(n: int)
      requires Valid() && 0 <= n
      modifies this`base
      ensures Valid() && n < |base| && |rows| <= |old(base)| && base[..|rows|] == old(base)[..|rows|]
    {
      hide AllOwned, AllPlaced, Frontier, Placed, OwnedAt;
      PlacedBases(base, rows, own, numecs, tblend);
      while n >= |base|
        modifies this`base
        invariant Valid() && |rows| <= |base| && base[..|rows|] == old(base)[..|rows|]
        decreases n + 1 - |base|
      {
        ghost var base0 := base;
        base := base + seq(MAX_DFAS_INCREMENT, _ => 0);
        BasesMore(nxt, chk, base0, base, rows, own, numecs, tblend);
      }
    }

    /** The first loop of genctbl: every state gets its end-of-buffer and action entries. */
    method MarkStates(dfaacc: seq<int>, lastdfa: int)
      requires |rows| == lastdfa + 1 && lastdfa < |dfaacc| && lastdfa < |base| && tblend + 2 < |chk| == |nxt|
      requires Marked(nxt, chk, base, rows, own, numecs, tblend, dfaacc, 0)
      modifies this`nxt, this`chk
      ensures Marked(nxt, chk, base, rows, own, numecs, tblend, dfaacc, |rows|) && |chk| == |nxt| == old(|chk|)
      ensures forall p :: tblend < p < |chk| && 0 <= p ==> chk[p] == old(chk)[p] && nxt[p] == old(nxt)[p]
    {
      hide Marked;
      var i := 0;
      while i <= lastdfa
        invariant 0 <= i <= lastdfa + 1 && |chk| == |nxt| == |old(chk)|
        invariant Marked(nxt, chk, base, rows, own, numecs, tblend, dfaacc, i)
        invariant forall p :: tblend < p < |chk| && 0 <= p ==> chk[p] == old(chk)[p] && nxt[p] == old(nxt)[p]
      {
        MarkedStep(nxt, chk, base, rows, own, numecs, tblend, dfaacc, i);
        var anum := dfaacc[i];
        var offset := base[i];
        chk := chk[offset := EOB_POSITION];
        chk := chk[offset - 1 := ACTION_POSITION];
        nxt := nxt[offset - 1 := anum];
        i := i + 1;
      }
    }

    /** The second loop of genctbl: state numbers become offsets. */
    method EmitSlots(ghost dfaacc: seq<int>, lastdfa: int) returns (trans: seq<TransInfo>)
      requires |rows| == lastdfa + 1 && 0 <= tblend && lastdfa + 1 < |base| && tblend + 2 < |chk| == |nxt|
      requires Marked(nxt, chk, base, rows, own, numecs, tblend, dfaacc, |rows|) && Targets(rows, numecs)
      ensures Emitted(trans, base, rows, own, tblend, dfaacc) && |trans| == tblend + 1
    {
      hide Marked, Targets, Emitted;
      trans := [];
      EmittedStart(base, rows, own, tblend, dfaacc);
      var i := 0;
      while i <= tblend
        invariant 0 <= i <= tblend + 1 && |trans| == i && Emitted(trans, base, rows, own, tblend, dfaacc)
      {
        EmittedStep(trans, nxt, chk, base, rows, own, numecs, tblend, dfaacc);
        if chk[i] == EOB_POSITION {
          trans := trans + [TransInfo(0, base[lastdfa + 1] - i)];
        } else if chk[i] == ACTION_POSITION {
          trans := trans + [TransInfo(0, nxt[i])];
        } else if chk[i] > numecs || chk[i] == 0 {
          trans := trans + [TransInfo(0, 0)];
        } else {
          trans := trans + [TransInfo(chk[i], base[nxt[i]] - (i - chk[i]))];
        }
        i := i + 1;
      }
    }

    /** genctbl: the marks of place_state become end-of-buffer and action entries, and state numbers become offsets.
        The size declared for the table is large enough for its entries unless there is only one class. */
    method GenCtbl(dfaacc: seq<int>, lastdfa: int, numRules: int) returns (trans: seq<TransInfo>, declared: int)
      requires Valid() && |rows| == lastdfa + 1 && 0 <= lastdfa < |dfaacc| && Targets(rows, numecs)
      modifies this
      ensures rows == old(rows) && |trans| == tblend + 3 && lastdfa + 1 < |base|
              && base[..|rows|] == old(base)[..|rows|]
      ensures Decodes(trans, base, rows, dfaacc, numecs, numRules)
      ensures declared == tblend + numecs + 1 && (|trans| <= declared <==> numecs >= 2)
    {
      hide AllOwned, AllPlaced, Frontier, Targets, Marked, Emitted, Decodes;
      var endOfBufferAction := numRules + 1;
      declared := tblend + numecs + 1;
      MakeRoom(lastdfa);
      ghost var base0, chk0, nxt0 := base, chk, nxt;
      base := base[lastdfa + 1 := tblend + 2];
      nxt := nxt[tblend + 1 := endOfBufferAction];
      chk := chk[tblend + 1 := numecs + 1];
      chk := chk[tblend + 2 := 1];
      nxt := nxt[tblend + 2 := 0];
      MarkedStart(nxt0, chk0, base0, rows, own, numecs, tblend, dfaacc, nxt, chk, base);
      assert base[..|rows|] == base0[..|rows|];
      MarkStates(dfaacc, lastdfa);
      var body := EmitSlots(dfaacc, lastdfa);
      trans := body + [TransInfo(chk[tblend + 1], nxt[tblend + 1]), TransInfo(chk[tblend + 2], nxt[tblend + 2])];
      Decoded(body, trans, nxt, chk, base, rows, own, numecs, tblend, dfaacc, numRules);
    }
  }

  // ----- genctbl

  /** struct yy_trans_info. */
  datatype TransInfo = TransInfo(verify: int, next: int)

  /** All transitions lead to states that exist. */
  ghost predicate Targets(rows: seq<seq<int>>, numecs: nat) {
    forall s :: 0 <= s < |rows| ==> TargetsIn(rows[s], |rows|, numecs)
  }

  ghost predicate TargetsIn(row: seq<int>, n: int, numecs: nat) {
    |row| == numecs + 1 && forall c :: 1 <= c <= numecs ==> 0 <= row[c] < n
  }

  lemma PlacedBases(base: seq<int>, rows: seq<seq<int>>, own: seq<Slot>, numecs: nat, tblend: int)
    requires AllPlaced(base, rows, own, numecs, tblend)
    ensures |rows| <= |base|
  {}

  /** Placement and ownership depend on the bases of the placed states only. */
  lemma BasesMore(nxt: seq<int>, chk: seq<int>, base: seq<int>, base': seq<int>, rows: seq<seq<int>>, own: seq<Slot>,
                  numecs: nat, tblend: int)
    requires AllOwned(nxt, chk, base, rows, own, numecs) && AllPlaced(base, rows, own, numecs, tblend)
    requires |rows| <= |base'| && forall s :: 0 <= s < |rows| ==> base'[s] == base[s]
    ensures AllOwned(nxt, chk, base', rows, own, numecs) && AllPlaced(base', rows, own, numecs, tblend)
  {
    forall p | 0 <= p < |own| ensures OwnedAt(nxt, chk, base', rows, own, numecs, p) {
      assert OwnedAt(nxt, chk, base, rows, own, numecs, p);
    }
    forall s | 0 <= s < |rows| ensures Placed(base', rows, own, numecs, tblend, s) {
      assert Placed(base, rows, own, numecs, tblend, s);
    }
  }

  /** Slot p once the states below k have got their end-of-buffer and action entries. */
  ghost predicate MarkedAt(nxt: seq<int>, chk: seq<int>, base: seq<int>, rows: seq<seq<int>>, own: seq<Slot>,
                           numecs: nat, dfaacc: seq<int>, k: int, p: int)
  {
    && 0 <= p < |own| && |own| == |chk| == |nxt|
    && match own[p]
       case Free => chk[p] == 0
       case Action(s) => 0 <= s < |rows| && s < |base| && s < |dfaacc| && p == base[s] - 1
                         && (s < k ==> chk[p] == ACTION_POSITION && nxt[p] == dfaacc[s])
       case Eob(s) => 0 <= s < |rows| && s < |base| && p == base[s] && (s < k ==> chk[p] == EOB_POSITION)
       case Move(s, c) => 0 <= s < |rows| && s < |base| && 1 <= c <= numecs && c < |rows[s]| && p == base[s] + c
                          && rows[s][c] != 0 && chk[p] == c && nxt[p] == rows[s][c]
  }

  ghost predicate Marked(nxt: seq<int>, chk: seq<int>, base: seq<int>, rows: seq<seq<int>>, own: seq<Slot>, numecs: nat,
                         tblend: int, dfaacc: seq<int>, k: int)
  {
    && |own| == |chk| == |nxt| && |rows| < |base| && |rows| <= |dfaacc| && tblend < |own|
    && (forall s :: 0 <= s < |rows| ==> Placed(base, rows, own, numecs, tblend, s))
    && (forall p :: 0 <= p <= tblend ==> MarkedAt(nxt, chk, base, rows, own, numecs, dfaacc, k, p))
  }

  lemma MarkedStart(nxt: seq<int>, chk: seq<int>, base: seq<int>, rows: seq<seq<int>>, own: seq<Slot>, numecs: nat,
                    tblend: int, dfaacc: seq<int>, nxt': seq<int>, chk': seq<int>, base': seq<int>)
    requires AllOwned(nxt, chk, base, rows, own, numecs) && AllPlaced(base, rows, own, numecs, tblend)
    requires |rows| < |base| && |rows| <= |dfaacc| && 0 <= tblend < |own| && |base'| == |base|
    requires |nxt'| == |nxt| && |chk'| == |chk| && forall s :: 0 <= s < |rows| ==> base'[s] == base[s]
    requires forall p :: 0 <= p <= tblend && p < |chk| && p < |nxt| ==> chk'[p] == chk[p] && nxt'[p] == nxt[p]
    ensures Marked(nxt', chk', base', rows, own, numecs, tblend, dfaacc, 0)
  {
    BasesMore(nxt, chk, base, base', rows, own, numecs, tblend);
    forall p | 0 <= p <= tblend ensures MarkedAt(nxt', chk', base', rows, own, numecs, dfaacc, 0, p) {
      assert OwnedAt(nxt, chk, base', rows, own, numecs, p);
    }
  }

  lemma MarkedStep(nxt: seq<int>, chk: seq<int>, base: seq<int>, rows: seq<seq<int>>, own: seq<Slot>, numecs: nat,
                   tblend: int, dfaacc: seq<int>, k: int)
    requires Marked(nxt, chk, base, rows, own, numecs, tblend, dfaacc, k) && 0 <= k < |rows|
    ensures 1 <= base[k] <= tblend < |chk|
    ensures Marked(nxt[base[k] - 1 := dfaacc[k]], chk[base[k] := EOB_POSITION][base[k] - 1 := ACTION_POSITION],
            base, rows, own,
                   numecs, tblend, dfaacc, k + 1)
  {
    assert Placed(base, rows, own, numecs, tblend, k);
    var nxt', chk' := nxt[base[k] - 1 := dfaacc[k]], chk[base[k] := EOB_POSITION][base[k] - 1 := ACTION_POSITION];
    var next := k + 1;
    forall p | 0 <= p <= tblend ensures MarkedAt(nxt', chk', base, rows, own, numecs, dfaacc, next, p) {
      assert MarkedAt(nxt, chk, base, rows, own, numecs, dfaacc, k, p);
    }
  }

  /** What is put out for slot p. */
  ghost predicate EmittedAt(trans: seq<TransInfo>, base: seq<int>, rows: seq<seq<int>>, own: seq<Slot>,
                            dfaacc: seq<int>, p: int) {
    && 0 <= p < |trans| && p < |own| && |rows| < |base| && |rows| <= |dfaacc|
    && match own[p]
       case Free => trans[p] == TransInfo(0, 0)
       case Action(s) => 0 <= s < |rows| && p == base[s] - 1 && trans[p] == TransInfo(0, dfaacc[s])
       case Eob(s) => 0 <= s < |rows| && p == base[s] && trans[p] == TransInfo(0, base[|rows|] - p)
       case Move(s, c) => 0 <= s < |rows| && 1 <= c < |rows[s]| && p == base[s] + c && 0 < rows[s][c] < |rows|
                          && trans[p] == TransInfo(c, base[rows[s][c]] - base[s])
  }

  ghost predicate Emitted(trans: seq<TransInfo>, base: seq<int>, rows: seq<seq<int>>, own: seq<Slot>, tblend: int,
                          dfaacc: seq<int>) {
    forall p :: 0 <= p < |trans| && p <= tblend ==> EmittedAt(trans, base, rows, own, dfaacc, p)
  }

  lemma EmittedStart(base: seq<int>, rows: seq<seq<int>>, own: seq<Slot>, tblend: int, dfaacc: seq<int>)
    ensures Emitted([], base, rows, own, tblend, dfaacc)
  {}

  lemma EmittedStep(trans: seq<TransInfo>, nxt: seq<int>, chk: seq<int>, base: seq<int>, rows: seq<seq<int>>,
                    own: seq<Slot>, numecs: nat, tblend: int, dfaacc: seq<int>)
    requires Marked(nxt, chk, base, rows, own, numecs, tblend, dfaacc, |rows|) && Targets(rows, numecs)
    requires Emitted(trans, base, rows, own, tblend, dfaacc) && |trans| <= tblend
    ensures var i := |trans|;
            && i < |chk| && i < |nxt|
            && (chk[i] != EOB_POSITION && chk[i] != ACTION_POSITION && 0 != chk[i] <= numecs ==> 0 <= nxt[i] < |base|)
            && Emitted(trans + [if chk[i] == EOB_POSITION then TransInfo(0, base[|rows|] - i)
                                else if chk[i] == ACTION_POSITION then TransInfo(0, nxt[i])
                                else if chk[i] > numecs || chk[i] == 0 then TransInfo(0, 0)
                                else TransInfo(chk[i], base[nxt[i]] - (i - chk[i]))], base, rows, own, tblend, dfaacc)
  {
    var i := |trans|;
    assert MarkedAt(nxt, chk, base, rows, own, numecs, dfaacc, |rows|, i);
    match own[i] {
      case Move(s, c) => assert TargetsIn(rows[s], |rows|, numecs);
      case _ =>
    }
    var more := trans + [if chk[i] == EOB_POSITION then TransInfo(0, base[|rows|] - i)
                         else if chk[i] == ACTION_POSITION then TransInfo(0, nxt[i])
                         else if chk[i] > numecs || chk[i] == 0 then TransInfo(0, 0)
                         else TransInfo(chk[i], base[nxt[i]] - (i - chk[i]))];
    forall p | 0 <= p < |more| && p <= tblend ensures EmittedAt(more, base, rows, own, dfaacc, p) {
      if p < i { assert EmittedAt(trans, base, rows, own, dfaacc, p); }
    }
  }

  // ----- what the generated scanner finds

  /** On class c state s goes where its row says, and the stored class alone tells whether it goes anywhere. */
  ghost predicate MovesAt(trans: seq<TransInfo>, base: seq<int>, rows: seq<seq<int>>, s: int, c: int)
    requires 0 <= s < |rows| && |rows| < |base| && 0 <= c < |rows[s]|
  {
    && 0 <= base[s] + c < |trans| && (trans[base[s] + c].verify == c <==> rows[s][c] != 0)
    && (rows[s][c] != 0 ==> 0 <= rows[s][c] < |rows| && base[s] + trans[base[s] + c].next == base[rows[s][c]])
  }

  /** The slots of state s. */
  ghost predicate DecodesAt(trans: seq<TransInfo>, base: seq<int>, rows: seq<seq<int>>, dfaacc: seq<int>, numecs: nat,
                            s: int)
    requires 0 <= s < |rows| && |rows| < |base| && |rows| <= |dfaacc|
  {
    && |rows[s]| == numecs + 1 && 1 <= base[s] && base[s] + numecs < |trans|
    && trans[base[s] - 1].next == dfaacc[s]
    && trans[base[s]].verify == 0 && base[s] + trans[base[s]].next == base[|rows|]
    && forall c :: 1 <= c <= numecs ==> MovesAt(trans, base, rows, s, c)
  }

  /** The table stands for the rows: different states have different bases, their entries lead from base to base, 0
      leads to the state for the end of the buffer, and that state jams on 0. */
  ghost predicate Decodes(trans: seq<TransInfo>, base: seq<int>, rows: seq<seq<int>>, dfaacc: seq<int>, numecs: nat,
                          numRules: int) {
    && |rows| < |base| && |rows| <= |dfaacc|
    && (forall s :: 0 <= s < |rows| ==> DecodesAt(trans, base, rows, dfaacc, numecs, s))
    && (forall s, t :: 0 <= s < t < |rows| ==> base[s] != base[t])
    && 1 <= base[|rows|] < |trans| && trans[base[|rows|]].verify != 0 && trans[base[|rows|] - 1].next == numRules + 1
    && (forall s :: 0 <= s < |rows| ==> base[s] != base[|rows|])
  }

  lemma Decoded(body: seq<TransInfo>, trans: seq<TransInfo>, nxt: seq<int>, chk: seq<int>, base: seq<int>,
                rows: seq<seq<int>>, own: seq<Slot>, numecs: nat, tblend: int, dfaacc: seq<int>, numRules: int)
    requires Marked(nxt, chk, base, rows, own, numecs, tblend, dfaacc, |rows|) && Targets(rows, numecs)
    requires Emitted(body, base, rows, own, tblend, dfaacc) && |body| == tblend + 1 && 0 <= tblend
    requires base[|rows|] == tblend + 2 && trans == body + [TransInfo(numecs + 1, numRules + 1), TransInfo(1, 0)]
    ensures Decodes(trans, base, rows, dfaacc, numecs, numRules)
  {
    forall s | 0 <= s < |rows|
      ensures DecodesAt(trans, base, rows, dfaacc, numecs, s) && 0 <= base[s] <= tblend < |own|
              && own[base[s]] == Eob(s)
    {
      DecodedAt(body, trans, base, rows, own, numecs, tblend, dfaacc, s);
    }
  }

  lemma DecodedAt(body: seq<TransInfo>, trans: seq<TransInfo>, base: seq<int>, rows: seq<seq<int>>, own: seq<Slot>,
                  numecs: nat, tblend: int, dfaacc: seq<int>, s: int)
    requires |rows| < |base| && |rows| <= |dfaacc| && 0 <= s < |rows| && Targets(rows, numecs)
    requires forall t :: 0 <= t < |rows| ==> Placed(base, rows, own, numecs, tblend, t)
    requires Emitted(body, base, rows, own, tblend, dfaacc) && |body| == tblend + 1 && body <= trans
    ensures DecodesAt(trans, base, rows, dfaacc, numecs, s) && 0 <= base[s] <= tblend < |own| && own[base[s]] == Eob(s)
  {
    assert Placed(base, rows, own, numecs, tblend, s) && TargetsIn(rows[s], |rows|, numecs);
    assert EmittedAt(body, base, rows, own, dfaacc, base[s] - 1) && EmittedAt(body, base, rows, own, dfaacc, base[s]);
    forall c | 1 <= c <= numecs ensures MovesAt(trans, base, rows, s, c) {
      var p := base[s] + c;
      assert EmittedAt(body, base, rows, own, dfaacc, p);
      match own[p]
      case Move(t, d) =>
        assert Placed(base, rows, own, numecs, tblend, t);
        assert d == c ==> own[base[t]] == Eob(t) && base[t] == base[s];
      case _ =>
    }
  }

  // ----- the match loop of a full-speed scanner

  /** The state after reading e, 0 when the DFA has jammed. */
  ghost function Go(rows: seq<seq<int>>, s: int, e: seq<int>): int {
    if e == [] then s
    else var t := Go(rows, s, e[..|e| - 1]);
         if 0 <= t < |rows| && 0 <= e[|e| - 1] < |rows[t]| then rows[t][e[|e| - 1]] else 0
  }

  /** Row 0 jams on everything, and rows lead to rows. */
  ghost predicate RowsFine(rows: seq<seq<int>>, numecs: nat) {
    |rows| >= 1 && Targets(rows, numecs) && forall c :: 1 <= c <= numecs && c < |rows[0]| ==> rows[0][c] == 0
  }

  ghost predicate Classes(e: seq<int>, numecs: nat) {
    forall i :: 0 <= i < |e| ==> 1 <= e[i] <= numecs
  }

  /** The accepting number after the first j classes; behind the text stands that of the end of the buffer. */
  ghost function AcceptAt(rows: seq<seq<int>>, dfaacc: seq<int>, numRules: int, s: int, text: seq<int>, j: int): int
    requires 0 <= j <= |text| + 1
  {
    if j == |text| + 1 then numRules + 1
    else var d := Go(rows, s, text[..j]);
         if 0 < d < |dfaacc| then dfaacc[d] else 0
  }

  lemma {:induction false} GoFine(rows: seq<seq<int>>, numecs: nat, s: int, e: seq<int>)
    requires RowsFine(rows, numecs) && 0 <= s < |rows| && Classes(e, numecs)
    ensures 0 <= Go(rows, s, e) < |rows|
  {
    if e != [] {
      var k := |e| - 1;
      GoFine(rows, numecs, s, e[..k]);
      assert TargetsIn(rows[Go(rows, s, e[..k])], |rows|, numecs);
    }
  }

  /** Once jammed, always jammed. */
  lemma {:induction false} GoJammed(rows: seq<seq<int>>, numecs: nat, s: int, text: seq<int>, i: int, j: int)
    requires RowsFine(rows, numecs) && Classes(text, numecs) && 0 <= i <= j <= |text| && Go(rows, s, text[..i]) == 0
    ensures Go(rows, s, text[..j]) == 0
  {
    if i < j {
      GoJammed(rows, numecs, s, text, i, j - 1);
      assert text[..j][..j - 1] == text[..j - 1];
      assert TargetsIn(rows[0], |rows|, numecs);
    }
  }

  /** act is the accepting number behind the longest accepted prefix. */
  ghost predicate LongestAccept(rows: seq<seq<int>>, dfaacc: seq<int>, numRules: int, s: int, text: seq<int>, act: int,
                                len: int) {
    && 1 <= len <= |text| && act == AcceptAt(rows, dfaacc, numRules, s, text, len) != 0
    && forall j :: len < j <= |text| ==> AcceptAt(rows, dfaacc, numRules, s, text, j) == 0
  }

  /** The scanner stands before class cp, in the slot of the DFA's state or of the state for the end of the buffer. */
  ghost predicate Standing(base: seq<int>, rows: seq<seq<int>>, s: int, text: seq<int>, cp: int, cur: int) {
    && 0 <= cp <= |text| + 1 && 1 <= |rows| < |base|
    && (cp <= |text| ==> 0 < Go(rows, s, text[..cp]) < |rows| && cur == base[Go(rows, s, text[..cp])])
    && (cp == |text| + 1 ==> 0 < Go(rows, s, text) < |rows| && cur == base[|rows|])
  }

  /** The last accepting state has been noted, with the position of the class that led there. */
  ghost predicate Noted(base: seq<int>, rows: seq<seq<int>>, dfaacc: seq<int>, numRules: int, s: int, text: seq<int>,
                        cp: int, lastState: int, lastCp: int)
  {
    && 0 <= cp <= |text| + 1 && -1 <= lastCp < cp
    && (lastCp >= 0 ==> Standing(base, rows, s, text, lastCp + 1, lastState)
                        && AcceptAt(rows, dfaacc, numRules, s, text, lastCp + 1) != 0)
    && (forall j :: lastCp + 1 < j <= cp ==> AcceptAt(rows, dfaacc, numRules, s, text, j) == 0)
  }

  /** One comparison of the match loop. */
  lemma SpeedStep(trans: seq<TransInfo>, base: seq<int>, rows: seq<seq<int>>, dfaacc: seq<int>, numecs: nat,
                  numRules: int, s: int, text: seq<int>, cp: int, cur: int)
    requires Decodes(trans, base, rows, dfaacc, numecs, numRules) && RowsFine(rows, numecs) && 1 <= s < |rows|
             && Classes(text, numecs)
    requires Standing(base, rows, s, text, cp, cur)
    ensures var c := (text + [0, 0])[cp];
            && 0 <= cur + c < |trans|
            && (trans[cur + c].verify == c
               ==> cp <= |text| && Standing(base, rows, s, text, cp + 1, cur + trans[cur + c].next))
            && (trans[cur + c].verify != c ==> cp == |text| + 1 || (cp < |text| && Go(rows, s, text[..cp + 1]) == 0))
  {
    if cp <= |text| {
      var d := Go(rows, s, text[..cp]);
      assert DecodesAt(trans, base, rows, dfaacc, numecs, d);
      if cp < |text| {
        assert text[..cp + 1][..cp] == text[..cp];
        assert MovesAt(trans, base, rows, d, text[cp]);
      } else {
        assert text[..cp] == text;
      }
    }
  }

  lemma ActionAt(trans: seq<TransInfo>, base: seq<int>, rows: seq<seq<int>>, dfaacc: seq<int>, numecs: nat,
                 numRules: int, s: int, text: seq<int>, cp: int, cur: int)
    requires Decodes(trans, base, rows, dfaacc, numecs, numRules) && Standing(base, rows, s, text, cp, cur)
    ensures 1 <= cur < |trans| && trans[cur - 1].next == AcceptAt(rows, dfaacc, numRules, s, text, cp)
  {
    if cp <= |text| { assert DecodesAt(trans, base, rows, dfaacc, numecs, Go(rows, s, text[..cp])); }
  }

  /** Behind the first class no state but accepts, until the DFA jams. */
  ghost predicate NeverBack(rows: seq<seq<int>>, dfaacc: seq<int>, numRules: int, s: int, text: seq<int>) {
    forall j :: 1 <= j <= |text| && Go(rows, s, text[..j]) != 0 ==> AcceptAt(rows, dfaacc, numRules, s, text, j) != 0
  }

  /** Where there is no need to back up, the state where the DFA jams accepts. */
  lemma NoNeed(base: seq<int>, rows: seq<seq<int>>, dfaacc: seq<int>, numRules: int, s: int, text: seq<int>, cp: int,
               cur: int)
    requires NeverBack(rows, dfaacc, numRules, s, text) && Standing(base, rows, s, text, cp, cur) && 0 <= numRules
    requires cp == |text| + 1 || (cp < |text| && Go(rows, s, text[..cp + 1]) == 0)
    requires |text| >= 1 ==> AcceptAt(rows, dfaacc, numRules, s, text, 1) != 0
    ensures AcceptAt(rows, dfaacc, numRules, s, text, cp) != 0
  {}

  /** The match loop of gen_next_match with the backing up of gen_bu_action, which is left out when no state needs it:
      the longest accepted prefix is found, or the end of the buffer where the DFA has not jammed. */
  method SpeedMatch(trans: seq<TransInfo>, start: int, text: seq<int>, backUp: bool, ghost base: seq<int>,
                    ghost rows: seq<seq<int>>, ghost dfaacc: seq<int>, ghost numecs: nat, ghost numRules: int,
                    ghost s: int)
    returns (act: int, len: int)
    requires backUp || NeverBack(rows, dfaacc, numRules, s, text)
    requires Decodes(trans, base, rows, dfaacc, numecs, numRules) && RowsFine(rows, numecs) && 1 <= s < |rows|
             && start == base[s]
    requires Classes(text, numecs) && 0 <= numRules
             && (|text| >= 1 ==> AcceptAt(rows, dfaacc, numRules, s, text, 1) != 0)
    ensures if Go(rows, s, text) != 0 then act == numRules + 1 && len == |text| + 1
            else LongestAccept(rows, dfaacc, numRules, s, text, act, len)
  {
    hide Decodes, RowsFine, Standing, Noted, LongestAccept, Go, AcceptAt, NeverBack;
    var buffer := text + [0, 0];
    var yyCp, cur, lastState, lastCp := 0, start, 0, -1;
    SpeedStart(trans, base, rows, dfaacc, numecs, numRules, s, text);
    var yyC := buffer[yyCp];
    StandingBounds(base, rows, s, text, yyCp, cur);
    SpeedStep(trans, base, rows, dfaacc, numecs, numRules, s, text, yyCp, cur);
    while trans[cur + yyC].verify == yyC
      invariant 0 <= yyCp <= |text| + 1 && yyC == buffer[yyCp] && 0 <= cur + yyC < |trans|
      invariant Standing(base, rows, s, text, yyCp, cur)
      invariant backUp ==> Noted(base, rows, dfaacc, numRules, s, text, yyCp, lastState, lastCp)
      decreases |text| + 1 - yyCp
    {
      SpeedStep(trans, base, rows, dfaacc, numecs, numRules, s, text, yyCp, cur);
      cur := cur + trans[cur + yyC].next;
      ActionAt(trans, base, rows, dfaacc, numecs, numRules, s, text, yyCp + 1, cur);
      if backUp {
        NotedStep(base, rows, dfaacc, numRules, s, text, yyCp, cur, lastState, lastCp);
        if trans[cur - 1].next != 0 {
          lastState, lastCp := cur, yyCp;
        }
      }
      StandingBounds(base, rows, s, text, yyCp + 1, cur);
      yyCp := yyCp + 1;
      yyC := buffer[yyCp];
      SpeedStep(trans, base, rows, dfaacc, numecs, numRules, s, text, yyCp, cur);
    }
    SpeedStep(trans, base, rows, dfaacc, numecs, numRules, s, text, yyCp, cur);
    ActionAt(trans, base, rows, dfaacc, numecs, numRules, s, text, yyCp, cur);
    Stopped(base, rows, dfaacc, numecs, numRules, s, text, yyCp, cur);
    act := trans[cur - 1].next;
    if !backUp { NoNeed(base, rows, dfaacc, numRules, s, text, yyCp, cur); }
    if act == 0 {
      StoppedBack(base, rows, dfaacc, numecs, numRules, s, text, yyCp, cur, lastState, lastCp);
      ActionAt(trans, base, rows, dfaacc, numecs, numRules, s, text, lastCp + 1, lastState);
      yyCp, cur := lastCp + 1, lastState;
      act := trans[cur - 1].next;
    }
    len := yyCp;
  }

  lemma SpeedStart(trans: seq<TransInfo>, base: seq<int>, rows: seq<seq<int>>, dfaacc: seq<int>, numecs: nat,
                   numRules: int, s: int, text: seq<int>)
    requires 1 <= s < |rows| && Decodes(trans, base, rows, dfaacc, numecs, numRules)
    ensures |rows| < |base| && Standing(base, rows, s, text, 0, base[s])
            && Noted(base, rows, dfaacc, numRules, s, text, 0, 0, -1)
  {
    assert text[..0] == [];
  }

  lemma StandingBounds(base: seq<int>, rows: seq<seq<int>>, s: int, text: seq<int>, cp: int, cur: int)
    requires Standing(base, rows, s, text, cp, cur)
    ensures 0 <= cp <= |text| + 1
  {}

  lemma NotedStep(base: seq<int>, rows: seq<seq<int>>, dfaacc: seq<int>, numRules: int, s: int, text: seq<int>, cp: int,
                  cur: int, lastState: int, lastCp: int)
    requires Noted(base, rows, dfaacc, numRules, s, text, cp, lastState, lastCp)
             && Standing(base, rows, s, text, cp + 1, cur)
    ensures cp <= |text|
    ensures if AcceptAt(rows, dfaacc, numRules, s, text, cp + 1) != 0
            then Noted(base, rows, dfaacc, numRules, s, text, cp + 1, cur, cp)
            else Noted(base, rows, dfaacc, numRules, s, text, cp + 1, lastState, lastCp)
  {
    hide Go, AcceptAt;
  }

  /** The loop has stopped at cp, where the DFA jams, or at the end of the buffer. */
  lemma Stopped(base: seq<int>, rows: seq<seq<int>>, dfaacc: seq<int>, numecs: nat, numRules: int, s: int,
                text: seq<int>, cp: int, cur: int)
    requires RowsFine(rows, numecs) && Classes(text, numecs) && 1 <= s < |rows| && 0 <= numRules
    requires Standing(base, rows, s, text, cp, cur)
    requires cp == |text| + 1 || (cp < |text| && Go(rows, s, text[..cp + 1]) == 0)
    requires |text| >= 1 ==> AcceptAt(rows, dfaacc, numRules, s, text, 1) != 0
    ensures cp == |text| + 1 ==> Go(rows, s, text) != 0
                                 && AcceptAt(rows, dfaacc, numRules, s, text, cp) == numRules + 1 != 0
    ensures cp < |text| ==> Go(rows, s, text) == 0
                            && forall j :: cp < j <= |text| ==> AcceptAt(rows, dfaacc, numRules, s, text, j) == 0
    ensures cp < |text| && AcceptAt(rows, dfaacc, numRules, s, text, cp) != 0 ==>
              LongestAccept(rows, dfaacc, numRules, s, text, AcceptAt(rows, dfaacc, numRules, s, text, cp), cp)
  {
    if cp < |text| {
      forall j | cp < j <= |text|
        ensures AcceptAt(rows, dfaacc, numRules, s, text, j) == 0 && Go(rows, s, text[..j]) == 0
      {
        GoJammed(rows, numecs, s, text, cp + 1, j);
      }
      assert text[..|text|] == text;
    }
  }

  /** If the state there does not accept, what has been noted is the answer. */
  lemma StoppedBack(base: seq<int>, rows: seq<seq<int>>, dfaacc: seq<int>, numecs: nat, numRules: int, s: int,
                    text: seq<int>, cp: int, cur: int, lastState: int, lastCp: int)
    requires Noted(base, rows, dfaacc, numRules, s, text, cp, lastState, lastCp) && cp < |text|
    requires forall j :: cp < j <= |text| ==> AcceptAt(rows, dfaacc, numRules, s, text, j) == 0
    requires AcceptAt(rows, dfaacc, numRules, s, text, cp) == 0 && AcceptAt(rows, dfaacc, numRules, s, text, 1) != 0
    ensures 0 <= lastCp && Standing(base, rows, s, text, lastCp + 1, lastState)
    ensures LongestAccept(rows, dfaacc, numRules, s, text,
                          AcceptAt(rows, dfaacc, numRules, s, text, lastCp + 1), lastCp + 1)
  {
    hide Go, AcceptAt;
  }

  lemma RoomBounds(chk: seq<int>, state: seq<int>, numecs: nat, i: int)
    requires Room(chk, state, numecs, i)
    ensures 1 <= i && i + numecs < |chk|
  {}

  lemma NothingStored(nxt: seq<int>, chk: seq<int>, base: seq<int>, rows: seq<seq<int>>, own: seq<Slot>, numecs: nat)
    requires AllOwned(nxt, chk, base, rows, own, numecs) && rows == []
    ensures forall p :: 0 <= p < |chk| ==> chk[p] == 0
  {
    forall p | 0 <= p < |chk| ensures chk[p] == 0 { assert OwnedAt(nxt, chk, base, rows, own, numecs, p); }
  }

  lemma OwnedMore(nxt: seq<int>, chk: seq<int>, base: seq<int>, rows: seq<seq<int>>, own: seq<Slot>, numecs: nat,
                  more: nat, p: int)
    requires AllOwned(nxt, chk, base, rows, own, numecs) && 0 <= p < |own| + more
    ensures OwnedAt(nxt + seq(more, _ => 0), chk + seq(more, _ => 0), base, rows, own + seq(more, _ => Free), numecs, p)
  {
    if p < |own| { assert OwnedAt(nxt, chk, base, rows, own, numecs, p); }
  }

  lemma PlacedMore(base: seq<int>, rows: seq<seq<int>>, own: seq<Slot>, numecs: nat, tblend: int, more: nat, s: int)
    requires Placed(base, rows, own, numecs, tblend, s)
    ensures Placed(base, rows, own + seq(more, _ => Free), numecs, tblend, s)
  {}
}
