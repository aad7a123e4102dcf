/** The emitted tables and the scanner's lookup in them (gen.c: gentabs, gen_next_compressed_state).
    Every emitted C array starts with a filler element 0. */
module Gentabs {
  import opened Flexdef
  import opened Ecs
  import opened Packing
  import opened Compression

  datatype ScanTables = ScanTables(
    base: seq<int>, def: seq<int>, nxt: seq<int>, chk: seq<int>, meta: seq<int>, accept: seq<int>,
    usemecs: bool, lastdfa: int, jamstate: int)

  /** The final link of a table entry. */
  function FinalLink(d: int, lastdfa: int): int {
    if d == JAMSTATE then lastdfa + 1 else if d < 0 then lastdfa - d + 1 else d
  }

  /** The emitted tables against the arrays before gentabs. */
  ghost predicate Emitted(t: ScanTables, nxt: seq<int>, chk: seq<int>, base: seq<int>, def: seq<int>, tblend: int,
                          numecs: int, usemecs: bool, tecbck: seq<int>, lastdfa: int, numtemps: int, jambase: int)
  {
    && 0 <= lastdfa && 0 <= numecs < |tecbck| && lastdfa + numtemps < |base| == |def| && 0 <= tblend < |chk| == |nxt|
    && t.lastdfa == lastdfa && t.jamstate == lastdfa + 1 && t.usemecs == usemecs
    && |t.base| == |t.def| == lastdfa + numtemps + 1 && |t.nxt| == |t.chk| == tblend + 1
    && (forall i :: 1 <= i <= lastdfa + numtemps ==>
          t.base[i] == if i <= lastdfa && base[i] == JAMSTATE then jambase else base[i])
    && (forall i :: 1 <= i <= lastdfa + numtemps && i != t.jamstate ==>
          t.def[i] == if i > lastdfa then t.jamstate else FinalLink(def[i], lastdfa))
    && EmittedSlots(t, nxt, chk, tblend)
    && (usemecs ==> |t.meta| == numecs + 1 && t.meta[0] == 0
                    && forall c :: 1 <= c <= numecs ==> t.meta[c] == Abs(tecbck[c]))
  }

  ghost predicate EmittedSlots(t: ScanTables, nxt: seq<int>, chk: seq<int>, tblend: int) {
    && 0 <= tblend < |chk| == |nxt| && |t.nxt| == |t.chk| == tblend + 1 && t.chk[0] == 0
    && (forall p :: 1 <= p <= tblend ==> t.nxt[p] == if chk[p] == 0 || nxt[p] == 0 then t.jamstate else nxt[p])
    && (forall p :: 1 <= p <= tblend ==> t.chk[p] == chk[p])
  }

  method GenTabs(x: PackedTables, numecs: int, usemecs: bool, tecbck: seq<int>, lastdfa: int, numtemps: int,
                 jamstate: int, jambase: int, dfaacc: seq<int>, endOfBufferState: int, numRules: int)
    returns (t: ScanTables)
    requires 0 <= lastdfa && 0 <= numecs < |tecbck| && 1 <= numtemps && lastdfa + numtemps < |x.base| == |x.def|
    requires 0 <= x.tblend < |x.chk| == |x.nxt| && jamstate == lastdfa + 1
    requires lastdfa < |dfaacc| && 1 <= endOfBufferState <= lastdfa
    modifies x`base, x`def, x`nxt
    ensures Emitted(t, old(x.nxt), x.chk, old(x.base), old(x.def), x.tblend, numecs, usemecs, tecbck,
            lastdfa, numtemps, jambase)
    ensures |t.accept| == lastdfa + 2 && t.accept[jamstate] == 0
    ensures |t.base| > 0 && |t.def| > 0 && |t.nxt| > 0 && t.accept[0] == t.base[0] == t.def[0] == t.nxt[0] == 0
    ensures !usemecs ==> t.meta == [0]
    ensures forall i :: 1 <= i <= lastdfa ==> t.accept[i] == if i == endOfBufferState then numRules + 1 else dfaacc[i]
  {
    var acc := dfaacc[endOfBufferState := numRules + 1];
    var yyaccept := [0];
    var i := 1;
    while i <= lastdfa
      invariant 1 <= i <= lastdfa + 1 && |yyaccept| == i && yyaccept[0] == 0
      invariant forall k :: 1 <= k < i ==> yyaccept[k] == acc[k]
    {
      yyaccept := yyaccept + [acc[i]];
      i := i + 1;
    }
    yyaccept := yyaccept + [0];
    var yymeta := [0];
    if usemecs {
      i := 1;
      while i <= numecs
        invariant 1 <= i <= numecs + 1 && |yymeta| == i && yymeta[0] == 0
        invariant forall k :: 1 <= k < i ==> yymeta[k] == Abs(tecbck[k])
      {
        yymeta := yymeta + [Abs(tecbck[i])];
        i := i + 1;
      }
    }
    var totalStates := lastdfa + numtemps;
    var yybase := GenBase(x, lastdfa, totalStates, jamstate, jambase);
    var yydef := [0];
    i := 1;
    while i <= totalStates
      invariant 1 <= i <= totalStates + 1 && |yydef| == i && yydef[0] == 0
      invariant forall k :: 1 <= k < i ==> yydef[k] == x.def[k]
    {
      yydef := yydef + [x.def[i]];
      i := i + 1;
    }
    var yynxt := GenNxt(x, jamstate);
    var yychk := [0];
    i := 1;
    while i <= x.tblend
      invariant 1 <= i <= x.tblend + 1 && |yychk| == i && yychk[0] == 0
      invariant forall k :: 1 <= k < i ==> yychk[k] == x.chk[k]
    {
      yychk := yychk + [x.chk[i]];
      i := i + 1;
    }
    t := ScanTables(yybase, yydef, yynxt, yychk, yymeta, yyaccept, usemecs, lastdfa, jamstate);
  }

  /** The loops that settle and emit base, and settle def. */
  method GenBase(x: PackedTables, lastdfa: int, totalStates: int, jamstate: int, jambase: int)
    returns (yybase: seq<int>)
    requires 0 <= lastdfa < totalStates < |x.base| == |x.def| && jamstate == lastdfa + 1
    modifies x`base, x`def
    ensures |x.base| == |x.def| == old(|x.base|) && |yybase| == totalStates + 1 && yybase[0] == 0
    ensures forall k :: 1 <= k <= totalStates ==>
              yybase[k] == if k <= lastdfa && old(x.base[k]) == JAMSTATE then jambase else old(x.base[k])
    ensures forall k :: 1 <= k <= totalStates && k != jamstate ==>
              x.def[k] == if k > lastdfa then jamstate else FinalLink(old(x.def[k]), lastdfa)
  {
    ghost var base0, def0 := x.base, x.def;
    yybase := [0];
    var i := 1;
    while i <= lastdfa
      invariant 1 <= i <= lastdfa + 1 && |yybase| == i && yybase[0] == 0 && |x.base| == |x.def| == |base0|
      invariant forall k :: 1 <= k < i ==> yybase[k] == (if base0[k] == JAMSTATE then jambase else base0[k])
      invariant forall k :: 1 <= k < i ==> x.def[k] == FinalLink(def0[k], lastdfa)
      invariant forall k :: i <= k < |base0| ==> x.base[k] == base0[k] && x.def[k] == def0[k]
    {
      var d := x.def[i];
      if x.base[i] == JAMSTATE { x.base := x.base[i := jambase]; }
      if d == JAMSTATE {
        x.def := x.def[i := jamstate];
      } else if d < 0 {
        x.def := x.def[i := lastdfa - d + 1];
      }
      yybase := yybase + [x.base[i]];
      i := i + 1;
    }
    yybase := yybase + [x.base[i]];
    i := i + 1;
    while i <= totalStates
      invariant lastdfa + 2 <= i <= totalStates + 1 && |yybase| == i && yybase[0] == 0
      invariant |x.base| == |x.def| == |base0|
      invariant forall k :: 1 <= k < i ==>
                  yybase[k] == (if k <= lastdfa && base0[k] == JAMSTATE then jambase else base0[k])
      invariant forall k :: 1 <= k <= lastdfa ==> x.def[k] == FinalLink(def0[k], lastdfa)
      invariant forall k :: lastdfa + 2 <= k < i ==> x.def[k] == jamstate
      invariant forall k :: i <= k < |base0| ==> x.base[k] == base0[k]
    {
      yybase := yybase + [x.base[i]];
      x.def := x.def[i := jamstate];
      i := i + 1;
    }
  }

  /** The loop that settles and emits nxt. */
  method GenNxt(x: PackedTables, jamstate: int) returns (yynxt: seq<int>)
    requires 0 <= x.tblend < |x.chk| == |x.nxt|
    modifies x`nxt
    ensures |yynxt| == x.tblend + 1 && yynxt[0] == 0
    ensures forall p :: 1 <= p <= x.tblend ==>
              yynxt[p] == if x.chk[p] == 0 || old(x.nxt[p]) == 0 then jamstate else old(x.nxt[p])
  {
    ghost var nxt0 := x.nxt;
    yynxt := [0];
    var i := 1;
    while i <= x.tblend
      invariant 1 <= i <= x.tblend + 1 && |yynxt| == i && yynxt[0] == 0 && |x.nxt| == |nxt0|
      invariant forall p :: 1 <= p < i ==> yynxt[p] == if x.chk[p] == 0 || nxt0[p] == 0 then jamstate else nxt0[p]
      invariant forall p :: i <= p < |nxt0| ==> x.nxt[p] == nxt0[p]
    {
      if x.chk[i] == 0 || x.nxt[i] == 0 { x.nxt := x.nxt[i := jamstate]; }
      yynxt := yynxt + [x.nxt[i]];
      i := i + 1;
    }
  }

  // ----- what the emitted tables mean

  /** At class c the slot of table entry s is s's own exactly for explicit classes, and then holds the target. */
  ghost predicate ClassAt(t: ScanTables, s: int, ext: map<int, int>, c: int) {
    && 0 <= s < |t.base| && 0 <= t.base[s] + c < |t.chk| == |t.nxt|
    && (t.chk[t.base[s] + c] == s <==> c in ext)
    && (c in ext ==> t.nxt[t.base[s] + c] == if ext[c] == 0 then t.jamstate else ext[c])
  }

  ghost predicate SlotAt(t: ScanTables, s: int, ext: map<int, int>, numecs: int) {
    && 1 <= s < |t.base| == |t.def|
    && forall c :: 0 <= c <= numecs ==> ClassAt(t, s, ext, c)
  }

  /** An entry has the jam state's base exactly if it is empty and linked to the jam state. */
  ghost predicate EntryAt(t: ScanTables, s: int, e: Entry, numecs: int) {
    && SlotAt(t, s, e.ext, numecs) && t.def[s] == (if s > t.lastdfa then t.jamstate else FinalLink(e.link, t.lastdfa))
    && 0 < t.jamstate < |t.base| && (t.base[s] == t.base[t.jamstate] <==> e == Entry(map[], JAMSTATE))
  }

  /** The tables hold, for every row, template and the jam state, its entry. */
  ghost predicate Holds(t: ScanTables, states: map<int, Entry>, entries: map<int, Entry>,
                        rows: seq<seq<int>>, temps: seq<seq<int>>, num: seq<int>, eob: int, numecs: nat)
  {
    && |rows| == t.lastdfa && t.jamstate == t.lastdfa + 1 && |temps| < -JAMSTATE && 0 < eob <= |rows|
    && AllRows(rows, numecs) && AllRows(temps, numecs)
    && RowsSound(states, rows, temps, numecs) && EobOnly(states, eob)
    && Finished(entries, states, temps, num, t.lastdfa, numecs, |temps|)
    && |t.base| == t.lastdfa + |temps| + 2
    && (forall s :: s in entries ==> EntryAt(t, s, entries[s], numecs))
    && SlotAt(t, t.jamstate, JamRow(numecs, eob), numecs)
    && numecs < |num|
    && (if t.usemecs then |t.meta| == numecs + 1 && t.meta[0] == 0
       && forall c :: 1 <= c <= numecs ==> t.meta[c] == Abs(num[c])
        else forall c :: 1 <= c <= numecs ==> num[c] == c)
    && (forall c :: 1 <= c <= numecs ==> 1 <= Abs(num[c]) <= numecs)
  }

  /** What the scanner must find: the row's target, with 0 turned into the jam state; on the end-of-buffer
      symbol the end-of-buffer state, which itself jams. */
  function Target(rows: seq<seq<int>>, eob: int, jamstate: int, s: int, c: int): int
    requires 1 <= s <= |rows| && 0 <= c < |rows[s - 1]|
  {
    if c == 0 then (if s == eob then jamstate else eob)
    else if rows[s - 1][c] == 0 then jamstate else rows[s - 1][c]
  }

  /** Progress of the lookup for class c of some state: at table entry s, with the class mapped or not,
      the answer is still goal. */
  ghost predicate OnTrack(t: ScanTables, rows: seq<seq<int>>, temps: seq<seq<int>>, num: seq<int>, eob: int,
                          numecs: nat, s: int, yyc: int, c: int, goal: int)
  {
    && |num| > numecs && 0 <= c <= numecs
    && if 1 <= s <= t.lastdfa && t.lastdfa == |rows| && |rows[s - 1]| == numecs + 1 then
         yyc == c && goal == Target(rows, eob, t.jamstate, s, c)
       else if t.lastdfa + 2 <= s < t.lastdfa + 2 + |temps| && |temps[s - t.lastdfa - 2]| == numecs + 1 then
         && yyc == (if c == 0 then 0 else Abs(num[c]))
         && goal == (if c == 0 then eob
                     else if temps[s - t.lastdfa - 2][c] == 0 then t.jamstate
                     else temps[s - t.lastdfa - 2][c])
       else
         && s == t.jamstate && 0 <= yyc <= numecs && (yyc == 0 <==> c == 0)
         && goal == (if c == 0 then eob else t.jamstate)
  }

  /** The remaining length of the chain of links, at most. */
  ghost function Rank(t: ScanTables, s: int): nat {
    if s == t.jamstate then 0 else if s > t.jamstate then 1 else if s > 0 then s + 1 else 0
  }

  /** One test of the loop: either the slot answers with the goal, or the link leads on, nearer to the jam state. */
  lemma LookupStep(t: ScanTables, states: map<int, Entry>, entries: map<int, Entry>, rows: seq<seq<int>>,
                   temps: seq<seq<int>>, num: seq<int>, eob: int, numecs: nat, s: int, yyc: int, c: int, goal: int)
    requires Holds(t, states, entries, rows, temps, num, eob, numecs)
    requires OnTrack(t, rows, temps, num, eob, numecs, s, yyc, c, goal)
    ensures 1 <= s < |t.base| == |t.def| && 0 <= t.base[s] + yyc < |t.chk| == |t.nxt|
    ensures t.chk[t.base[s] + yyc] == s ==> t.nxt[t.base[s] + yyc] == goal
    ensures t.chk[t.base[s] + yyc] != s ==>
              var s' := t.def[s];
              && Rank(t, s') < Rank(t, s) && (s > t.lastdfa ==> t.lastdfa < s' < t.lastdfa + 2)
              && (t.usemecs && s' >= t.lastdfa + 2 ==> 0 <= yyc < |t.meta|)
              && OnTrack(t, rows, temps, num, eob, numecs, s',
                         if t.usemecs && s' >= t.lastdfa + 2 then t.meta[yyc] else yyc, c, goal)
  {
    if 1 <= s <= t.lastdfa {
      LookupState(t, states, entries, rows, temps, num, eob, numecs, s, c, goal);
    } else if s == t.jamstate {
      JamRowAt(numecs, eob);
      assert ClassAt(t, s, JamRow(numecs, eob), yyc);
    } else {
      LookupTemplate(t, states, entries, rows, temps, num, eob, numecs, s, yyc, c, goal);
    }
  }

  lemma LookupTemplate(t: ScanTables, states: map<int, Entry>, entries: map<int, Entry>, rows: seq<seq<int>>,
                       temps: seq<seq<int>>, num: seq<int>, eob: int, numecs: nat, s: int, yyc: int, c: int, goal: int)
    requires Holds(t, states, entries, rows, temps, num, eob, numecs) && t.lastdfa + 2 <= s
    requires OnTrack(t, rows, temps, num, eob, numecs, s, yyc, c, goal)
    ensures 1 <= s < |t.base| == |t.def| && 0 <= t.base[s] + yyc < |t.chk| == |t.nxt|
    ensures t.chk[t.base[s] + yyc] == s ==> t.nxt[t.base[s] + yyc] == goal
    ensures t.chk[t.base[s] + yyc] != s ==>
              t.def[s] == t.jamstate && OnTrack(t, rows, temps, num, eob, numecs, t.jamstate, yyc, c, goal)
  {
    var k := s - t.lastdfa - 2;
    assert TempDone(entries, temps, num, t.lastdfa, numecs, k);
    var e := entries[s];
    assert TempSound(e, temps[k], num, numecs);
    assert EntryAt(t, s, e, numecs) && ClassAt(t, s, e.ext, yyc);
  }

  lemma LookupState(t: ScanTables, states: map<int, Entry>, entries: map<int, Entry>, rows: seq<seq<int>>,
                    temps: seq<seq<int>>, num: seq<int>, eob: int, numecs: nat, s: int, c: int, goal: int)
    requires Holds(t, states, entries, rows, temps, num, eob, numecs) && 1 <= s <= t.lastdfa
    requires OnTrack(t, rows, temps, num, eob, numecs, s, c, c, goal)
    ensures 1 <= s < |t.base| == |t.def| && 0 <= t.base[s] + c < |t.chk| == |t.nxt|
    ensures t.chk[t.base[s] + c] == s ==> t.nxt[t.base[s] + c] == goal
    ensures t.chk[t.base[s] + c] != s ==>
              var s' := t.def[s];
              && Rank(t, s') < Rank(t, s)
              && (t.usemecs && s' >= t.lastdfa + 2 ==> 0 <= c < |t.meta|)
              && OnTrack(t, rows, temps, num, eob, numecs, s',
                         if t.usemecs && s' >= t.lastdfa + 2 then t.meta[c] else c, c, goal)
  {
    var e := states[s];
    assert entries[s] == e && Sound(e, rows[s - 1], s, rows, temps, numecs);
    assert EntryAt(t, s, e, numecs) && ClassAt(t, s, e.ext, c);
    FullRowIsRow(e.link, rows, temps, numecs);
  }

  /** A state with no transitions has the jam state's base. */
  lemma JamsAll(t: ScanTables, states: map<int, Entry>, entries: map<int, Entry>, rows: seq<seq<int>>,
                temps: seq<seq<int>>, num: seq<int>, eob: int, numecs: nat, s: int)
    requires Holds(t, states, entries, rows, temps, num, eob, numecs) && 1 <= s <= |rows| && s != eob
    requires s in states && (0 !in states[s].ext ==> states[s] == Entry(map[], JAMSTATE))
    ensures 0 < t.jamstate < |t.base| && s < |t.base| && t.base[s] == t.base[t.jamstate]
  {
    assert entries[s] == states[s];
    assert EntryAt(t, s, entries[s], numecs);
  }

  /** A state with the jam state's base jams on every class. */
  lemma AllJam(t: ScanTables, states: map<int, Entry>, entries: map<int, Entry>, rows: seq<seq<int>>,
               temps: seq<seq<int>>, num: seq<int>, eob: int, numecs: nat, s: int)
    requires Holds(t, states, entries, rows, temps, num, eob, numecs) && 1 <= s <= |rows| && t.jamstate < |t.base|
             && s < |t.base|
    requires t.base[s] == t.base[t.jamstate]
    ensures s != eob && AllZero(rows[s - 1], numecs) && s in states && states[s] == Entry(map[], JAMSTATE)
  {
    var e := states[s];
    assert entries[s] == e && Sound(e, rows[s - 1], s, rows, temps, numecs);
    assert EntryAt(t, s, e, numecs);
  }

  lemma Emits(t: ScanTables, states: map<int, Entry>, entries: map<int, Entry>, rows: seq<seq<int>>,
              temps: seq<seq<int>>, num: seq<int>, eob: int, numecs: nat)
    requires Holds(t, states, entries, rows, temps, num, eob, numecs)
    ensures |rows| == t.lastdfa && t.jamstate == t.lastdfa + 1 < |t.base| && 0 < eob <= |rows|
    ensures forall s :: 0 <= s < |rows| ==> |rows[s]| == numecs + 1
  {}

  /** The next-state loop of the generated scanner. It stays inside the tables, maps the class through
      yy_meta at most once, and finds exactly the row's target. */
  method NextState(t: ScanTables, start: int, class0: int, ghost states: map<int, Entry>,
                   ghost entries: map<int, Entry>, ghost rows: seq<seq<int>>, ghost temps: seq<seq<int>>,
                   ghost num: seq<int>, ghost eob: int, ghost numecs: nat)
    returns (s: int, ghost conversions: nat)
    requires Holds(t, states, entries, rows, temps, num, eob, numecs)
    requires 1 <= start <= |rows| && 0 <= class0 <= numecs < |rows[start - 1]|
    ensures s == Target(rows, eob, t.jamstate, start, class0)
    ensures conversions <= 1
  {
    hide Holds, OnTrack;
    ghost var goal := Target(rows, eob, t.jamstate, start, class0);
    LookupStart(t, states, entries, rows, temps, num, eob, numecs, start, class0);
    var yyc := class0;
    s := start;
    conversions := 0;
    LookupStep(t, states, entries, rows, temps, num, eob, numecs, s, yyc, class0, goal);
    while t.chk[t.base[s] + yyc] != s
      invariant OnTrack(t, rows, temps, num, eob, numecs, s, yyc, class0, goal)
      invariant 1 <= s < |t.base| == |t.def| && 0 <= t.base[s] + yyc < |t.chk| == |t.nxt|
      invariant conversions <= 1 && (conversions == 1 ==> s > t.lastdfa) && (conversions == 0 ==> yyc == class0)
      decreases Rank(t, s)
    {
      LookupStep(t, states, entries, rows, temps, num, eob, numecs, s, yyc, class0, goal);
      s := t.def[s];
      if t.usemecs && s >= t.lastdfa + 2 {
        yyc := t.meta[yyc];
        conversions := conversions + 1;
      }
      LookupStep(t, states, entries, rows, temps, num, eob, numecs, s, yyc, class0, goal);
    }
    LookupStep(t, states, entries, rows, temps, num, eob, numecs, s, yyc, class0, goal);
    s := t.nxt[t.base[s] + yyc];
  }

  lemma LookupStart(t: ScanTables, states: map<int, Entry>, entries: map<int, Entry>, rows: seq<seq<int>>,
                    temps: seq<seq<int>>, num: seq<int>, eob: int, numecs: nat, s: int, c: int)
    requires Holds(t, states, entries, rows, temps, num, eob, numecs)
    requires 1 <= s <= |rows| && 0 <= c <= numecs < |rows[s - 1]|
    ensures OnTrack(t, rows, temps, num, eob, numecs, s, c, c, Target(rows, eob, t.jamstate, s, c))
  {
  }

  // ----- the emitted tables do hold the rows

  /** Where base + c lies, the emitted arrays answer for s as the entry says. */
  lemma EmittedClass(t: ScanTables, nxt: seq<int>, chk: seq<int>, base: seq<int>, def: seq<int>, tblend: int,
                     s: int, e: Entry, c: int)
    requires Placed(nxt, chk, base, def, s, e) && EmittedSlots(t, nxt, chk, tblend) && chk[0] == 0
    requires 1 <= s < |t.base| == |t.def| && 0 <= c && t.base[s] == base[s] >= 0 && base[s] + c <= tblend
    ensures ClassAt(t, s, e.ext, c)
  {
    var p := base[s] + c;
    if chk[p] == s { assert p - base[s] == c; }
  }

  /** An entry whose base is not its own has nothing of its own there. */
  lemma EmittedNothing(t: ScanTables, nxt: seq<int>, chk: seq<int>, base: seq<int>, def: seq<int>, tblend: int,
                       s: int, e: Entry, c: int, jambase: int)
    requires Placed(nxt, chk, base, def, s, e) && e.ext == map[] && EmittedSlots(t, nxt, chk, tblend)
    requires 1 <= s < |t.base| == |t.def| && 0 <= c && t.base[s] == jambase > 0 && jambase + c <= tblend
    ensures ClassAt(t, s, e.ext, c)
  {
    var p, b := jambase + c, base[s];
    assert chk[p] == s ==> p - b in e.ext;
  }

  /** What gentabs does to one placed entry. */
  lemma EmittedSlot(t: ScanTables, nxt: seq<int>, chk: seq<int>, base: seq<int>, def: seq<int>, tblend: int,
                    s: int, e: Entry, numecs: nat, jambase: int)
    requires Placed(nxt, chk, base, def, s, e) && EmittedSlots(t, nxt, chk, tblend) && chk[0] == 0
    requires 1 <= s < |t.base| == |t.def|
    requires base[s] <= jambase && jambase + numecs == tblend && 0 < jambase
    requires t.base[s] == if base[s] == JAMSTATE then jambase else base[s]
    ensures SlotAt(t, s, e.ext, numecs)
  {
    forall c | 0 <= c <= numecs ensures ClassAt(t, s, e.ext, c) {
      if base[s] == JAMSTATE {
        EmittedNothing(t, nxt, chk, base, def, tblend, s, e, c, jambase);
      } else {
        EmittedClass(t, nxt, chk, base, def, tblend, s, e, c);
      }
    }
  }

  /** The tables emitted for the arrays that FinishTables leaves hold all entries. */
  lemma EmittedHolds(t: ScanTables, nxt: seq<int>, chk: seq<int>, base: seq<int>, def: seq<int>, tblend: int,
                     placed: map<int, Entry>, states: map<int, Entry>, rows: seq<seq<int>>, temps: seq<seq<int>>,
                     num: seq<int>, usemecs: bool, eob: int, numecs: nat, jambase: int)
    requires Emitted(t, nxt, chk, base, def, tblend, numecs, usemecs, num, |rows|, |temps| + 1, jambase)
    requires !usemecs ==> forall c :: 1 <= c <= numecs ==> num[c] == c
    requires forall c :: 1 <= c <= numecs ==> 1 <= Abs(num[c]) <= numecs
    requires Consistent(nxt, chk, base, def, tblend, placed) && jambase > 0 && jambase + numecs == tblend
    requires |rows| + 1 in placed && placed[|rows| + 1] == Entry(JamRow(numecs, eob), 0) && base[|rows| + 1] == jambase
    requires Finished(placed - {|rows| + 1}, states, temps, num, |rows|, numecs, |temps|)
    requires forall s :: s in placed && s != |rows| + 1 ==> 0 < s < |base| && base[s] < jambase
    requires |temps| < -JAMSTATE && 0 < eob <= |rows| && AllRows(rows, numecs) && AllRows(temps, numecs)
    requires RowsSound(states, rows, temps, numecs) && EobOnly(states, eob)
    ensures Holds(t, states, placed - {|rows| + 1}, rows, temps, num, eob, numecs)
  {
    hide Emitted, Consistent, EntryAt, SlotAt, RowsSound, Finished, EobOnly, AllRows;
    var entries := placed - {|rows| + 1};
    forall s | s in entries ensures EntryAt(t, s, entries[s], numecs) {
      assert s in placed && placed[s] == entries[s] && s != |rows| + 1;
      EmittedKeys(entries, states, rows, temps, num, numecs, s);
      EmittedEntry(t, nxt, chk, base, def, tblend, placed, s, num, usemecs, numecs, |rows|, |temps| + 1, jambase);
    }
    JamRowAt(numecs, eob);
    assert 0 in JamRow(numecs, eob);
    EmittedEntry(t, nxt, chk, base, def, tblend, placed, |rows| + 1, num, usemecs, numecs, |rows|,
        |temps| + 1, jambase);
    EmittedRest(t, nxt, chk, base, def, tblend, num, usemecs, numecs, |rows|, |temps| + 1, jambase);
  }

  lemma EmittedKeys(entries: map<int, Entry>, states: map<int, Entry>, rows: seq<seq<int>>, temps: seq<seq<int>>,
                    num: seq<int>, numecs: nat, s: int)
    requires Finished(entries, states, temps, num, |rows|, numecs, |temps|) && s in entries
    ensures 1 <= s <= |rows| + |temps| + 1 && (s > |rows| ==> entries[s].ext != map[])
  {
    if s > |rows| { assert TempDone(entries, temps, num, |rows|, numecs, s - |rows| - 2); }
  }

  lemma EmittedRest(t: ScanTables, nxt: seq<int>, chk: seq<int>, base: seq<int>, def: seq<int>, tblend: int,
                    num: seq<int>, usemecs: bool, numecs: nat, lastdfa: int, numtemps: int, jambase: int)
    requires Emitted(t, nxt, chk, base, def, tblend, numecs, usemecs, num, lastdfa, numtemps, jambase)
    ensures numecs < |num| && t.lastdfa == lastdfa && t.jamstate == lastdfa + 1 && |t.base| == lastdfa + numtemps + 1
            && t.usemecs == usemecs
    ensures usemecs ==> |t.meta| == numecs + 1 && t.meta[0] == 0
                        && forall c :: 1 <= c <= numecs ==> t.meta[c] == Abs(num[c])
  {}

  lemma EmittedEntry(t: ScanTables, nxt: seq<int>, chk: seq<int>, base: seq<int>, def: seq<int>, tblend: int,
                     placed: map<int, Entry>, s: int, num: seq<int>, usemecs: bool, numecs: nat,
                     lastdfa: int, numtemps: int, jambase: int)
    requires Emitted(t, nxt, chk, base, def, tblend, numecs, usemecs, num, lastdfa, numtemps, jambase)
    requires Consistent(nxt, chk, base, def, tblend, placed) && jambase > 0 && jambase + numecs == tblend
    requires s in placed && 1 <= s <= lastdfa + numtemps && base[s] <= jambase
    requires 1 <= numtemps && base[lastdfa + 1] == jambase && (s != lastdfa + 1 ==> base[s] < jambase)
    requires s > lastdfa ==> placed[s].ext != map[]
    ensures SlotAt(t, s, placed[s].ext, numecs)
    ensures s != lastdfa + 1 ==> EntryAt(t, s, placed[s], numecs)
  {
    assert Placed(nxt, chk, base, def, s, placed[s]);
    EmittedSlot(t, nxt, chk, base, def, tblend, s, placed[s], numecs, jambase);
  }

  /** The end of table generation: closing the tables and emitting them. The emitted tables hold every row. */
  method MakeTables(c: Compressor, lastdfa: int, endOfBufferState: int, dfaacc: seq<int>, numRules: int)
    returns (t: ScanTables, ghost entries: map<int, Entry>, ghost num: seq<int>)
    requires c.Valid() && lastdfa == |c.rows| && |c.temps| <= |c.rows| && endOfBufferState == c.eob > 0
    requires lastdfa < |dfaacc|
    modifies c.Repr
    ensures c.rows == old(c.rows) && c.temps == old(c.temps)
    ensures Holds(t, old(c.x.Entries()), entries, c.rows, c.temps, num, endOfBufferState, c.numecs)
    ensures |t.accept| == lastdfa + 2 && t.accept[lastdfa + 1] == 0
    ensures forall i :: 1 <= i <= lastdfa ==> t.accept[i] == if i == endOfBufferState then numRules + 1 else dfaacc[i]
  {
    hide QueueSound, RowsSound, EobOnly, Avoids, AllRows, TempsStored, MetaUniform, WellLinked, Consistent,
         StackOk, Apart, Bounds, Finished, JamRow, Emitted, Holds;
    ghost var states := c.x.Entries();
    var jamstate, jambase := c.FinishTables(lastdfa, endOfBufferState);
    num := c.Num();
    entries := c.x.placed - {jamstate};
    ghost var nxt, base, def := c.x.nxt, c.x.base, c.x.def;
    ConsistentFacts(nxt, c.x.chk, base, def, c.x.tblend, c.x.placed);
    t := GenTabs(c.x, c.numecs, c.usemecs, c.tecbck[..], lastdfa, c.numtemps, jamstate, jambase,
        dfaacc, endOfBufferState, numRules);
    EmittedNum(t, nxt, c.x.chk, base, def, c.x.tblend, c.numecs, c.usemecs, c.tecbck[..], num,
        lastdfa, c.numtemps, jambase);
    EmittedHolds(t, nxt, c.x.chk, base, def, c.x.tblend, c.x.placed, states, c.rows, c.temps, num, c.usemecs,
                 endOfBufferState, c.numecs, jambase);
  }

  lemma EmittedNum(t: ScanTables, nxt: seq<int>, chk: seq<int>, base: seq<int>, def: seq<int>, tblend: int, numecs: int,
                   usemecs: bool, tecbck: seq<int>, num: seq<int>, lastdfa: int, numtemps: int, jambase: int)
    requires Emitted(t, nxt, chk, base, def, tblend, numecs, usemecs, tecbck, lastdfa, numtemps, jambase)
    requires |num| == |tecbck| && (usemecs ==> num == tecbck)
    ensures Emitted(t, nxt, chk, base, def, tblend, numecs, usemecs, num, lastdfa, numtemps, jambase)
  {
  }
}
