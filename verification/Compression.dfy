/** Row-displacement compression of the DFA rows (tblcmp.c: bldtbl, mktemplate, cmptmps, mkdeftbl).
    A row is a seq of numecs + 1 state numbers indexed by equivalence class; index 0 is not used. */
module Compression {
  import opened Ecs
  import opened Flexdef
  import opened Packing
  import opened Protos
  import opened Results

  /** A row of table targets: one nonnegative state number per class. */
  ghost predicate IsRow(row: seq<int>, numecs: int) {
    |row| == numecs + 1 && forall c :: 1 <= c <= numecs ==> row[c] >= 0
  }

  /** link names a state below s or an existing template. */
  predicate LinkOk(link: int, s: int, numtemps: int) {
    1 <= link < s || (JAMSTATE < link < 0 && -numtemps <= link)
  }

  /** The row a link stands for: a state's, a template's, or all jams. */
  ghost function FullRow(link: int, rows: seq<seq<int>>, temps: seq<seq<int>>, numecs: nat): seq<int> {
    if 1 <= link <= |rows| then rows[link - 1]
    else if -|temps| <= link < 0 && link != JAMSTATE then temps[-link - 1]
    else seq(numecs + 1, _ => 0)
  }

  /** Entry e of state s determines row: explicit transitions first, the linked row for the others. */
  ghost predicate Sound(e: Entry, row: seq<int>, s: int, rows: seq<seq<int>>, temps: seq<seq<int>>, numecs: nat) {
    && (e.link == JAMSTATE || LinkOk(e.link, s, |temps|))
    && (forall c :: c in e.ext ==> 0 <= c <= numecs + 1 && (c == 0 ==> e.ext[c] == 0))
    && (forall c :: c in e.ext && c <= numecs ==> e.ext[c] >= 0)
    && (forall c :: 1 <= c <= numecs && c < |row| && c < |FullRow(e.link, rows, temps, numecs)| ==>
          row[c] == if c in e.ext then e.ext[c] else FullRow(e.link, rows, temps, numecs)[c])
  }

  ghost predicate AllRows(rows: seq<seq<int>>, numecs: int) {
    forall s :: 0 <= s < |rows| ==> IsRow(rows[s], numecs)
  }

  ghost predicate AllZero(row: seq<int>, numecs: int) {
    forall c :: 1 <= c <= numecs && c < |row| ==> row[c] == 0
  }

  /** The row goes somewhere. */
  ghost predicate Live(row: seq<int>, numecs: int) {
    |row| == numecs + 1 && exists c :: 1 <= c <= numecs && row[c] > 0
  }

  /** Every template goes somewhere, so its entry is never empty. */
  ghost predicate LiveTemps(temps: seq<seq<int>>, numecs: int) {
    forall k :: 0 <= k < |temps| ==> Live(temps[k], numecs)
  }

  /** Every row fed so far has a sound entry, and there are no other entries. */
  ghost predicate RowsSound(entries: map<int, Entry>, rows: seq<seq<int>>, temps: seq<seq<int>>, numecs: nat) {
    && (forall s :: 1 <= s <= |rows| ==> s in entries && Sound(entries[s], rows[s - 1], s, rows, temps, numecs))
    && (forall s :: s in entries ==> 1 <= s <= |rows|)
  }

  /** Only the end-of-buffer state answers class 0, the end-of-buffer symbol, itself; no entry links to it. */
  ghost predicate EobOnly(entries: map<int, Entry>, eob: int) {
    forall s :: s in entries ==> (0 in entries[s].ext <==> s == eob) && entries[s].link != eob
  }

  /** No queued slot names the end-of-buffer state. */
  ghost predicate Avoids(order: seq<int>, tbls: seq<int>, eob: int) {
    |tbls| == MSP && forall k :: 0 <= k < |order| ==> 0 <= order[k] < MSP && tbls[order[k]] != eob
  }

  /** Each live slot of the proto queue holds the full row of the state or template it names. */
  ghost predicate QueueSound(order: seq<int>, tbls: seq<int>, coms: seq<int>, save: seq<int>,
                             rows: seq<seq<int>>, temps: seq<seq<int>>, numecs: nat)
  {
    && |tbls| == |coms| == MSP
    && forall k :: 0 <= k < |order| ==> SlotSound(order[k], tbls, coms, save, rows, temps, numecs)
  }

  ghost predicate SlotSound(s: int, tbls: seq<int>, coms: seq<int>, save: seq<int>,
                            rows: seq<seq<int>>, temps: seq<seq<int>>, numecs: nat)
  {
    && 1 <= s < |tbls| && s < |coms| && LinkOk(tbls[s], |rows| + 1, |temps|)
    && HoldsIn(tbls, coms, save, numecs, s, tbls[s], coms[s], FullRow(tbls[s], rows, temps, numecs))
  }

  /** Template k occupies the k-th block of tnxt. */
  ghost predicate TempsStored(tnxt: seq<int>, temps: seq<seq<int>>, numecs: int) {
    && numecs * |temps| + numecs < |tnxt|
    && forall k, c :: 0 <= k < |temps| && 1 <= c <= numecs ==> StoredAt(tnxt, temps, numecs, k, c)
  }

  ghost predicate StoredAt(tnxt: seq<int>, temps: seq<seq<int>>, numecs: int, k: int, c: int) {
    && 0 <= k < |temps| && 0 <= c < |temps[k]|
    && 0 <= numecs * (k + 1) + c < |tnxt| && tnxt[numecs * (k + 1) + c] == temps[k][c]
  }

  lemma StoredRoom(tnxt: seq<int>, temps: seq<seq<int>>, numecs: int, tmpbase: int)
    requires TempsStored(tnxt, temps, numecs) && 1 <= numecs <= CSIZE && tmpbase == numecs * (|temps| + 1)
    ensures 0 <= tmpbase < |tnxt| && tmpbase + numecs < |tnxt| + MAX_TEMPLATE_XPAIRS_INCREMENT
  {
    MulSplit(numecs, |temps|, 1);
  }

  lemma PrefixSame(a: seq<int>, b: seq<int>, k: int)
    requires 0 <= k <= |a| <= |b| && b[..|a|] == a
    ensures b[..k] == a[..k]
  {
    assert b[..k] == b[..|a|][..k];
  }

  /** transset lists the classes below i with a transition. */
  ghost predicate SupportBelow(transset: seq<int>, state: seq<int>, i: int) {
    && |transset| < i <= |state| && (forall k :: 0 <= k < |transset| ==> 1 <= transset[k] < i)
    && (forall j, k :: 0 <= j < k < |transset| ==> transset[j] < transset[k])
    && (forall c :: 1 <= c < i ==> (c in transset <==> state[c] != 0))
  }

  lemma SupportStart(state: seq<int>)
    requires |state| >= 1
    ensures SupportBelow([], state, 1)
  {}

  lemma SupportNext(transset: seq<int>, state: seq<int>, i: int)
    requires SupportBelow(transset, state, i) && 1 <= i < |state|
    ensures SupportBelow(if state[i] == 0 then transset else transset + [i], state, i + 1)
  {}

  lemma TemplateMade(t: seq<int>, transset: seq<int>, state: seq<int>, comstate: int, numecs: nat)
    requires IsRow(state, numecs) && comstate > 0 && |t| == numecs + 1 && SupportBelow(transset, state, numecs + 1)
    requires forall c :: 1 <= c <= numecs ==> t[c] == if state[c] == 0 then 0 else comstate
    ensures IsTemplate(t, state, comstate, numecs) && IsSupport(transset, state, numecs)
  {}

  /** Classes on one meta list have the same entry in every template. */
  ghost predicate MetaUniform(bck: seq<int>, temps: seq<seq<int>>, numecs: nat) {
    forall k, i, j ::
      (0 <= k < |temps| && 1 <= i <= numecs && 1 <= j <= numecs && i < |temps[k]| && j < |temps[k]| && Same(bck, i, j))
      ==> temps[k][i] == temps[k][j]
  }

  // ----- how the facts survive a new row or template

  lemma FullRowIsRow(link: int, rows: seq<seq<int>>, temps: seq<seq<int>>, numecs: nat)
    requires AllRows(rows, numecs) && AllRows(temps, numecs)
    ensures IsRow(FullRow(link, rows, temps, numecs), numecs)
  {
  }

  lemma FullRowStable(link: int, rows: seq<seq<int>>, temps: seq<seq<int>>, numecs: nat,
                      moreRows: seq<seq<int>>, moreTemps: seq<seq<int>>)
    requires link == JAMSTATE || LinkOk(link, |rows| + 1, |temps|)
    ensures FullRow(link, rows + moreRows, temps + moreTemps, numecs) == FullRow(link, rows, temps, numecs)
  {
  }

  lemma RowsSoundTemplate(entries: map<int, Entry>, rows: seq<seq<int>>, temps: seq<seq<int>>, numecs: nat, t: seq<int>)
    requires RowsSound(entries, rows, temps, numecs) && |temps| + 1 < -JAMSTATE
    ensures RowsSound(entries, rows, temps + [t], numecs)
  {
    forall s | 1 <= s <= |rows|
      ensures Sound(entries[s], rows[s - 1], s, rows, temps + [t], numecs)
    {
      FullRowStable(entries[s].link, rows, temps, numecs, [], [t]);
      assert rows + [] == rows;
    }
  }

  lemma RowsSoundRow(entries: map<int, Entry>, rows: seq<seq<int>>, temps: seq<seq<int>>, numecs: nat, row: seq<int>,
                     e: Entry)
    requires RowsSound(entries, rows, temps, numecs) && |temps| < -JAMSTATE
    requires Sound(e, row, |rows| + 1, rows, temps, numecs)
    ensures RowsSound(entries[|rows| + 1 := e], rows + [row], temps, numecs)
  {
    var rows', entries' := rows + [row], entries[|rows| + 1 := e];
    assert temps + [] == temps;
    forall s | 1 <= s <= |rows'| && s in entries'
      ensures Sound(entries'[s], rows'[s - 1], s, rows', temps, numecs)
    {
      FullRowStable(entries'[s].link, rows, temps, numecs, [row], []);
    }
  }

  lemma QueueSoundGrow(order: seq<int>, tbls: seq<int>, coms: seq<int>, save: seq<int>,
                       rows: seq<seq<int>>, temps: seq<seq<int>>, numecs: nat,
                       moreRows: seq<seq<int>>, moreTemps: seq<seq<int>>)
    requires QueueSound(order, tbls, coms, save, rows, temps, numecs) && |temps| + |moreTemps| < -JAMSTATE
    ensures QueueSound(order, tbls, coms, save, rows + moreRows, temps + moreTemps, numecs)
  {
    forall k | 0 <= k < |order|
      ensures SlotSound(order[k], tbls, coms, save, rows + moreRows, temps + moreTemps, numecs)
    {
      FullRowStable(tbls[order[k]], rows, temps, numecs, moreRows, moreTemps);
    }
  }

  /** mkprot keeps the queue sound when the new front names a link with the saved row. */
  lemma QueueSoundProt(order: seq<int>, tbls: seq<int>, coms: seq<int>, save: seq<int>, order': seq<int>,
                       save': seq<int>, rows: seq<seq<int>>, temps: seq<seq<int>>, numecs: nat, link: int, com: int,
                       row: seq<int>)
    requires QueueSound(order, tbls, coms, save, rows, temps, numecs) && numecs >= 1
    requires order' != [] && 1 <= order'[0] < MSP && RowStored(save', save, numecs, order'[0], row)
    requires order' == [order'[0]] + order || (|order| > 0 && order' == Reused(order))
    requires LinkOk(link, |rows| + 1, |temps|) && SameRow(row, FullRow(link, rows, temps, numecs), numecs)
    ensures QueueSound(order', tbls[order'[0] := link], coms[order'[0] := com], save', rows, temps, numecs)
  {
    hide FullRow, RowStored;
    var slot := order'[0];
    forall k | 0 <= k < |order'|
      ensures SlotSound(order'[k], tbls[slot := link], coms[slot := com], save', rows, temps, numecs)
    {
      if order'[k] == slot {
        HoldsStored(tbls, coms, save, save', numecs, slot, link, com, row);
      } else {
        assert order'[k] == order[k - 1];
        assert SlotSound(order[k - 1], tbls, coms, save, rows, temps, numecs);
        var t := order[k - 1];
        HoldsKept(tbls, coms, save, save', numecs, slot, link, com, row, t, tbls[t], coms[t],
            FullRow(tbls[t], rows, temps, numecs));
      }
    }
  }

  lemma AvoidsProt(order: seq<int>, tbls: seq<int>, order': seq<int>, eob: int, link: int)
    requires Avoids(order, tbls, eob) && link != eob
    requires order' != [] && 1 <= order'[0] < MSP
             && (order' == [order'[0]] + order || (|order| > 0 && order' == Reused(order)))
    ensures Avoids(order', tbls[order'[0] := link], eob)
  {
    forall k | 0 <= k < |order'| ensures 0 <= order'[k] < MSP && tbls[order'[0] := link][order'[k]] != eob {
      if k > 0 { assert order'[k] == order[k - 1]; }
    }
  }

  lemma AvoidsMove(order: seq<int>, k: int, tbls: seq<int>, eob: int)
    requires Avoids(order, tbls, eob) && 0 <= k < |order|
    ensures Avoids(MovedToFront(order, k), tbls, eob)
    ensures tbls[order[k]] != eob
  {
    var order' := MovedToFront(order, k);
    forall m | 0 <= m < |order'|
      ensures order'[m] == if m == 0 then order[k] else if m <= k then order[m - 1] else order[m]
    {
    }
  }

  lemma AvoidsNew(order: seq<int>, tbls: seq<int>, coms: seq<int>, save: seq<int>,
                  rows: seq<seq<int>>, temps: seq<seq<int>>, numecs: nat, eob: int)
    requires QueueSound(order, tbls, coms, save, rows, temps, numecs) && eob == |rows| + 1
    ensures Avoids(order, tbls, eob)
  {
    forall k | 0 <= k < |order| ensures 0 <= order[k] < MSP && tbls[order[k]] != eob {
      assert SlotSound(order[k], tbls, coms, save, rows, temps, numecs);
    }
  }

  /** Equal on the classes. */
  ghost predicate SameRow(a: seq<int>, b: seq<int>, numecs: int) {
    |a| == |b| == numecs + 1 && forall c :: 1 <= c <= numecs ==> a[c] == b[c]
  }

  lemma QueueSoundMove(order: seq<int>, k: int, tbls: seq<int>, coms: seq<int>, save: seq<int>,
                       rows: seq<seq<int>>, temps: seq<seq<int>>, numecs: nat)
    requires QueueSound(order, tbls, coms, save, rows, temps, numecs) && 0 <= k < |order|
    ensures QueueSound(MovedToFront(order, k), tbls, coms, save, rows, temps, numecs)
  {
    var order' := MovedToFront(order, k);
    forall m | 0 <= m < |order'| ensures SlotSound(order'[m], tbls, coms, save, rows, temps, numecs) {
      assert order'[m] == if m == 0 then order[k] else if m <= k then order[m - 1] else order[m];
    }
  }

  lemma SlotFacts(order: seq<int>, k: int, tbls: seq<int>, coms: seq<int>, save: seq<int>,
                  rows: seq<seq<int>>, temps: seq<seq<int>>, numecs: nat)
    requires QueueSound(order, tbls, coms, save, rows, temps, numecs) && 0 <= k < |order|
    ensures |tbls| == MSP && 1 <= order[k] < MSP && LinkOk(tbls[order[k]], |rows| + 1, |temps|)
    ensures HoldsIn(tbls, coms, save, numecs, order[k], tbls[order[k]], coms[order[k]],
            FullRow(tbls[order[k]], rows, temps, numecs))
  {
  }

  // ----- the two kinds of entries bldtbl makes

  /** The number of nonzero targets. */
  ghost function Nonzero(state: seq<int>, numecs: int): set<int>
    requires numecs < |state|
  {
    set c | 1 <= c <= numecs && state[c] != 0
  }

  /** The queued slot at position at is the best match so far: ext is the difference, mindiff its size. */
  ghost predicate Best(order: seq<int>, at: int, minprot: int, ext: seq<int>, row: seq<int>, state: seq<int>,
                       mindiff: int, numecs: int)
  {
    && 0 <= at < |order| && order[at] == minprot && |row| == |state| == numecs + 1
    && IsDiff(ext, row, state, numecs) && mindiff == |Differing(row, state, numecs)|
  }

  /** A row has no transition on class CSIZE, the number that a Char cannot hold: those on NUL have a table of their own
      then. */
  predicate Spare(state: seq<int>, numecs: int) {
    numecs == CSIZE && numecs < |state| ==> state[numecs] == 0
  }

  /** What ntod tells bldtbl about a row: the number of its transitions, where one on NUL may have been counted that is
      not there, and the most frequent target with its frequency. */
  ghost predicate Counts(state: seq<int>, totaltrans: int, comstate: int, comfreq: int, numecs: int) {
    && numecs < |state| && 0 <= totaltrans - |Nonzero(state, numecs)| <= 1 && Spare(state, numecs)
    && (totaltrans > |Nonzero(state, numecs)| ==> numecs >= 128)
    && (totaltrans > 0 ==> comstate > 0)
    && (comfreq > totaltrans - |Nonzero(state, numecs)| ==> Occurs(comstate, state, numecs))
  }

  lemma CountsRange(state: seq<int>, totaltrans: int, comstate: int, comfreq: int, numecs: int)
    requires Counts(state, totaltrans, comstate, comfreq, numecs)
    ensures numecs < |state| && 0 <= totaltrans - |Nonzero(state, numecs)| <= 1
  {}

  /** A row that is worth comparing goes somewhere, and a target that is frequent enough for a template occurs. */
  lemma CountsLive(state: seq<int>, totaltrans: int, comstate: int, comfreq: int, numecs: nat)
    requires Counts(state, totaltrans, comstate, comfreq, numecs) && numecs >= 1 && IsRow(state, numecs)
    requires totaltrans * 100 >= numecs * PROTO_SIZE_PERCENTAGE
    ensures numecs < |state| && 0 <= totaltrans - |Nonzero(state, numecs)| <= 1 && Spare(state, numecs)
    ensures totaltrans > 0 && comstate > 0 && Live(state, numecs)
    ensures comfreq * 100 >= totaltrans * TEMPLATE_SAME_PERCENTAGE ==> Occurs(comstate, state, numecs)
  {
    var c :| c in Nonzero(state, numecs);
    assert state[c] > 0;
  }

  lemma GainedLive(before: map<int, Entry>, after: map<int, Entry>, s: int, live: bool)
    requires Gained(before, after, s, true) && live
    ensures Gained(before, after, s, live)
  {}

  /** The template of state towards comstate. */
  ghost predicate IsTemplate(t: seq<int>, state: seq<int>, comstate: int, numecs: int) {
    |t| == |state| == numecs + 1 && forall c :: 1 <= c <= numecs ==> t[c] == if state[c] == 0 then 0 else comstate
  }

  /** c lists, ascending, the classes on which state does not jam. */
  ghost predicate IsSupport(c: seq<int>, state: seq<int>, numecs: nat) {
    |state| == numecs + 1 && ClassOk(c, numecs) && |c| <= numecs
    && forall i :: 1 <= i <= numecs ==> (i in c <==> state[i] != 0)
  }

  lemma TempsStoredKeep(tnxt: seq<int>, tnxt': seq<int>, temps: seq<seq<int>>, numecs: int, t: seq<int>)
    requires numecs >= 1 && TempsStored(tnxt, temps, numecs)
    requires var b := numecs * (|temps| + 1);
             && b + numecs < |tnxt'| && b < |tnxt| && tnxt'[..b + 1] == tnxt[..b + 1] && t == tnxt'[b..b + numecs + 1]
    ensures TempsStored(tnxt', temps + [t], numecs)
  {
    var b := numecs * (|temps| + 1);
    MulSplit(numecs, |temps| + 1, 1);
    MulSplit(numecs, |temps|, 1);
    var temps' := temps + [t];
    forall k, c | 0 <= k < |temps'| && 1 <= c <= numecs
      ensures StoredAt(tnxt', temps', numecs, k, c)
    {
      if k < |temps| {
        assert StoredAt(tnxt, temps, numecs, k, c);
        BlockBefore(numecs, k + 1, |temps| + 1, c);
        PrefixAt(tnxt, tnxt', b, numecs * (k + 1) + c);
      }
    }
  }

  lemma BlockBefore(numecs: int, k: int, n: int, c: int)
    requires numecs >= 1 && 0 <= k < n && c <= numecs
    ensures numecs * k + c <= numecs * n
  {
    MulSplit(numecs, k, n - k);
    MulSplit(numecs, 1, n - k - 1);
  }

  lemma PrefixAt(a: seq<int>, a': seq<int>, b: int, p: int)
    requires 0 <= p <= b < |a| && b < |a'| && a'[..b + 1] == a[..b + 1]
    ensures a'[p] == a[p]
  {
    assert a'[..b + 1][p] == a[..b + 1][p];
  }

  /** Refining the meta partition by the support of state keeps all templates, and the new one, uniform. */
  lemma MetaUniformRefined(before: seq<int>, after: seq<int>, temps: seq<seq<int>>, numecs: nat, c: seq<int>,
                           state: seq<int>, comstate: int, t: seq<int>)
    requires MetaUniform(before, temps, numecs) && RefinedBy(before, after, numecs, c)
    requires IsSupport(c, state, numecs) && IsTemplate(t, state, comstate, numecs)
    ensures MetaUniform(after, temps + [t], numecs)
  {
  }

  lemma JamEntry(state: seq<int>, s: int, rows: seq<seq<int>>, temps: seq<seq<int>>, numecs: nat)
    requires IsRow(state, numecs)
    ensures |Explicit(state, numecs, JAMSTATE)| == |Nonzero(state, numecs)|
    ensures Sound(Entry(Explicit(state, numecs, JAMSTATE), JAMSTATE), state, s, rows, temps, numecs)
  {
    assert Explicit(state, numecs, JAMSTATE).Keys == Nonzero(state, numecs);
  }

  /** The entry that mkentry makes for the class behind the last one does not harm. */
  lemma StrayEntry(state: seq<int>, totaltrans: int, behind: int, s: int, rows: seq<seq<int>>, temps: seq<seq<int>>,
                   numecs: nat)
    requires IsRow(state, numecs) && 0 <= totaltrans - |Nonzero(state, numecs)| <= 1
    ensures 0 <= totaltrans - |Explicit(state, numecs, JAMSTATE)| <= 1
    ensures Sound(MadeEntry(state, numecs, JAMSTATE, totaltrans, behind), state, s, rows, temps, numecs)
  {
    JamEntry(state, s, rows, temps, numecs);
    if Explicit(state, numecs, JAMSTATE) == map[] {
      forall c | 1 <= c <= numecs ensures state[c] == 0 {
        assert c !in Explicit(state, numecs, JAMSTATE);
      }
    }
  }

  /** The entries of the states that there were before are still there, and s has got one; unless live, it is that of a
      state without transitions. */
  ghost predicate Gained(before: map<int, Entry>, after: map<int, Entry>, s: int, live: bool) {
    s in after && after == before[s := after[s]] && (live <==> after[s] != Entry(map[], JAMSTATE))
  }

  lemma MadeLive(before: map<int, Entry>, s: int, state: seq<int>, n: int, link: int, totaltrans: int, behind: int)
    requires n < |state| && 0 <= totaltrans - |Explicit(state, n, link)| <= 1
    ensures Gained(before, before[s := MadeEntry(state, n, link, totaltrans, behind)], s,
                   totaltrans > 0 || link != JAMSTATE)
  {
    var e := MadeEntry(state, n, link, totaltrans, behind);
    if Explicit(state, n, link) == map[] {
      assert |Explicit(state, n, link)| == 0;
      if totaltrans == 1 { assert n + 1 in e.ext; }
    }
  }

  /** Where nothing is counted that is not there, the entry is the explicit part. */
  lemma MadeExactly(state: seq<int>, n: int, link: int, totaltrans: int, behind: int)
    requires n < |state| && totaltrans == |Explicit(state, n, link)|
    ensures MadeEntry(state, n, link, totaltrans, behind) == Entry(Explicit(state, n, link), link)
  {
    if Explicit(state, n, link) == map[] { assert |Explicit(state, n, link)| == 0; }
  }

  lemma DiffEntry(ext: seq<int>, state: seq<int>, s: int, link: int, rows: seq<seq<int>>, temps: seq<seq<int>>,
                  numecs: nat)
    requires IsRow(state, numecs) && LinkOk(link, s, |temps|)
    requires var row := FullRow(link, rows, temps, numecs); |row| == numecs + 1 && IsDiff(ext, row, state, numecs)
    ensures |Explicit(ext, numecs, link)| == |Differing(FullRow(link, rows, temps, numecs), state, numecs)|
    ensures Sound(Entry(Explicit(ext, numecs, link), link), state, s, rows, temps, numecs)
    ensures Entry(Explicit(ext, numecs, link), link) == Against(FullRow(link, rows, temps, numecs), state, link, numecs)
  {
    var against := Against(FullRow(link, rows, temps, numecs), state, link, numecs);
    assert Explicit(ext, numecs, link).Keys == Differing(FullRow(link, rows, temps, numecs), state, numecs);
    assert Explicit(ext, numecs, link) == against.ext;
  }

  // ----- one template too many

  /** A row with so many transitions is worth comparing with others. */
  predicate Worth(totaltrans: int, numecs: nat) {
    totaltrans * 100 >= numecs * PROTO_SIZE_PERCENTAGE
  }

  lemma WorthIs(totaltrans: int, numecs: nat)
    ensures Worth(totaltrans, numecs) <==> totaltrans * 100 >= numecs * PROTO_SIZE_PERCENTAGE
  {}

  /** comstate is one of the targets of the row. */
  ghost predicate Occurs(comstate: int, row: seq<int>, numecs: int) {
    exists c :: 1 <= c <= numecs && c < |row| && row[c] == comstate
  }

  /** A row with a template of its own, the one whose link is taken for the jam state: whatever the other entries
      are, the entry that mktemplate writes for the row does not determine it. */
  ghost predicate Misled(row: seq<int>, rows: seq<seq<int>>, temps: seq<seq<int>>, numecs: nat) {
    && |temps| + 1 == -JAMSTATE
    && exists t, ext, comstate :: Template(t, ext, row, comstate, numecs)
         && !Sound(Entry(Explicit(ext, numecs, -|temps| - 1), -|temps| - 1), row, |rows| + 1, rows, temps + [t], numecs)
  }

  /** t is the template of row and ext what is left to write for row. */
  ghost predicate Template(t: seq<int>, ext: seq<int>, row: seq<int>, comstate: int, numecs: nat) {
    && comstate > 0 && IsTemplate(t, row, comstate, numecs) && |ext| == numecs + 1 && IsDiff(ext, t, row, numecs)
  }

  /** The transitions to comstate are left to the template, and the jam state is what the link leads to. */
  lemma LastTemplate(row: seq<int>, comstate: int, rows: seq<seq<int>>, temps: seq<seq<int>>, numecs: nat)
    requires IsRow(row, numecs) && comstate > 0 && Occurs(comstate, row, numecs) && |temps| + 1 == -JAMSTATE
    ensures Misled(row, rows, temps, numecs)
  {
    var t := seq(numecs + 1, c requires 0 <= c <= numecs => if row[c] == 0 then 0 else comstate);
    var ext := seq(numecs + 1, c requires 0 <= c <= numecs => if t[c] == row[c] then SAME_TRANS else row[c]);
    var e := Entry(Explicit(ext, numecs, JAMSTATE), JAMSTATE);
    var c :| 1 <= c <= numecs && c < |row| && row[c] == comstate;
    assert Template(t, ext, row, comstate, numecs);
    assert c !in e.ext && FullRow(JAMSTATE, rows, temps + [t], numecs)[c] == 0;
  }

  // ----- what bldtbl decides

  /** What bldtbl works on: the entries of the states, their rows, the templates, and the queue of protos. */
  datatype Tables = Tables(entries: map<int, Entry>, rows: seq<seq<int>>, temps: seq<seq<int>>, queue: seq<Proto>)

  /** The number of classes on which a row differs from the one that a proto stands for. */
  ghost function Distance(v: Tables, p: Proto, state: seq<int>, numecs: nat): nat {
    var row := FullRow(p.link, v.rows, v.temps, numecs);
    if numecs < |row| && numecs < |state| then |Differing(row, state, numecs)| else 0
  }

  ghost predicate FirstWith(queue: seq<Proto>, com: int, at: int) {
    0 <= at < |queue| && queue[at].com == com && forall k :: 0 <= k < at ==> queue[k].com != com
  }

  ghost predicate NoneWith(queue: seq<Proto>, com: int) {
    forall k :: 0 <= k < |queue| ==> queue[k].com != com
  }

  /** The proto looked at first, and its distance d: the first one with the same common state, where the row has one;
      the first of all otherwise. Without one the number of transitions stands for the distance. */
  ghost predicate FirstPick(v: Tables, state: seq<int>, totaltrans: int, comstate: int, checkcom: bool, at: int, d: int,
                            numecs: nat)
  {
    if checkcom && !NoneWith(v.queue, comstate) then
      FirstWith(v.queue, comstate, at) && d == Distance(v, v.queue[at], state, numecs)
    else
      at == 0 && d == if checkcom || v.queue == [] then totaltrans else Distance(v, v.queue[0], state, numecs)
  }

  /** No proto from position f on, up to below k, is closer to the row than d; unless d is d0, that is the distance of
      the one at position at, and those in between are further away. */
  ghost predicate Closest(v: Tables, state: seq<int>, f: int, d0: int, k: int, at: int, d: int, numecs: nat) {
    && 0 <= f && d <= d0 && (d == d0 ==> at == f)
    && (forall j :: f <= j < k && j < |v.queue| ==> d <= Distance(v, v.queue[j], state, numecs))
    && (d < d0 ==> f <= at < k && at < |v.queue| && d == Distance(v, v.queue[at], state, numecs)
                   && forall j :: f <= j < at ==> d < Distance(v, v.queue[j], state, numecs))
  }

  /** The proto that bldtbl settles on, and its distance: the one looked at first if it is close enough, or the closest
      one from there on. */
  ghost predicate Pick(v: Tables, state: seq<int>, totaltrans: int, comstate: int, checkcom: bool, at: int, d: int,
                       numecs: nat)
  {
    exists f, d0 :: FirstPick(v, state, totaltrans, comstate, checkcom, f, d0, numecs)
                    && if d0 * 100 <= totaltrans * FIRST_MATCH_DIFF_PERCENTAGE then at == f && d == d0
                       else Closest(v, state, f, d0, |v.queue|, at, d, numecs)
  }

  /** The entry of a row against another one: exactly the transitions in which they differ. */
  ghost function Against(row: seq<int>, state: seq<int>, link: int, numecs: nat): Entry
    requires numecs < |row| && numecs < |state|
  {
    Entry(map c | c in Differing(row, state, numecs) :: state[c], link)
  }

  /** The row has got a template of its own, which is in front of the queue, and is entered against it. */
  ghost predicate GotTemplate(before: Tables, after: Tables, state: seq<int>, com: int, numecs: nat) {
    var link := -|before.temps| - 1;
    && |after.temps| == |before.temps| + 1 && after.temps[..|before.temps|] == before.temps
    && var t := after.temps[|before.temps|];
       && IsTemplate(t, state, com, numecs)
       && after.entries == before.entries[|before.rows| + 1 := Against(t, state, link, numecs)]
       && after.queue == Pushed(before.queue, Proto(link, com), numecs)
  }

  /** The row has got an entry of its own. */
  ghost predicate GotRow(before: Tables, after: Tables, state: seq<int>, totaltrans: int, behind: int, numecs: nat) {
    && numecs < |state| && after.temps == before.temps
    && after.entries
       == before.entries[|before.rows| + 1 := MadeEntry(state, numecs, JAMSTATE, totaltrans, behind)]
  }

  /** The queue after the proto at position at has been used: it is in front, unless p has been queued for a row that
      differs a lot and has taken its place. */
  ghost function Refreshed(queue: seq<Proto>, at: int, p: Proto, numecs: int, more: bool): seq<Proto>
    requires 0 <= at < |queue|
  {
    if !more then Fronted(queue, at)
    else if at + 1 < |Pushed(queue, p, numecs)| then Fronted(Pushed(queue, p, numecs), at + 1)
    else Pushed(queue, p, numecs)
  }

  /** The row is entered against the proto at position at. */
  ghost predicate GotProto(before: Tables, after: Tables, state: seq<int>, totaltrans: int, com: int, at: int, d: int,
                           numecs: nat)
  {
    && 0 <= at < |before.queue| && after.temps == before.temps
    && var link, s := before.queue[at].link, |before.rows| + 1;
       var row := FullRow(link, before.rows, before.temps, numecs);
       && numecs < |row| && numecs < |state|
       && after.entries == before.entries[s := Against(row, state, link, numecs)]
       && after.queue == Refreshed(before.queue, at, Proto(s, com), numecs,
                                   d * 100 >= totaltrans * NEW_PROTO_DIFF_PERCENTAGE)
  }

  /** The common state that a row is queued with: only one that is frequent enough counts. */
  ghost function Common(totaltrans: int, comstate: int, comfreq: int): int {
    if comfreq * 100 > totaltrans * CHECK_COM_PERCENTAGE then comstate else 0
  }

  /** The row is to get a template: no proto is close, and most of its transitions go to one state. */
  ghost predicate Templated(totaltrans: int, comfreq: int, d: int) {
    d * 100 > totaltrans * ACCEPTABLE_DIFF_PERCENTAGE && comfreq * 100 >= totaltrans * TEMPLATE_SAME_PERCENTAGE
  }

  /** What bldtbl makes of a row, where d is the distance of the proto at position at that it settles on. */
  ghost predicate Built(before: Tables, after: Tables, state: seq<int>, totaltrans: int, comstate: int, comfreq: int,
                        behind: int, at: int, d: int, numecs: nat)
  {
    var com := Common(totaltrans, comstate, comfreq);
    && after.rows == before.rows + [state]
    && if !Worth(totaltrans, numecs) then
         GotRow(before, after, state, totaltrans, behind, numecs) && after.queue == before.queue
       else if Templated(totaltrans, comfreq, d) then
         GotTemplate(before, after, state, com, numecs)
       else if d * 100 > totaltrans * ACCEPTABLE_DIFF_PERCENTAGE then
         && GotRow(before, after, state, totaltrans, behind, numecs)
         && after.queue == Pushed(before.queue, Proto(|before.rows| + 1, com), numecs)
       else
         GotProto(before, after, state, totaltrans, com, at, d, numecs)
  }

  /** What bldtbl decides and does: the proto at position at, with distance d, is what it settles on for a row that is
      worth it; it stops only where a template is needed that would be the last one. */
  ghost predicate Decided(before: Tables, after: Tables, state: seq<int>, totaltrans: int, comstate: int, comfreq: int,
                          behind: int, done: bool, at: int, d: int, numecs: nat)
  {
    && (Worth(totaltrans, numecs)
        ==> Pick(before, state, totaltrans, comstate, comfreq * 100 > totaltrans * CHECK_COM_PERCENTAGE, at, d, numecs))
    && if done then Built(before, after, state, totaltrans, comstate, comfreq, behind, at, d, numecs)
       else after == before && |before.temps| + 1 == -JAMSTATE && Worth(totaltrans, numecs)
            && Templated(totaltrans, comfreq, d)
  }

  lemma NowDecided(before: Tables, after: Tables, state: seq<int>, totaltrans: int, comstate: int, comfreq: int,
                   behind: int, done: bool, at: int, d: int, numecs: nat)
    requires Worth(totaltrans, numecs)
             ==> Pick(before, state, totaltrans, comstate, comfreq * 100 > totaltrans * CHECK_COM_PERCENTAGE, at, d,
                   numecs)
    requires if done then Built(before, after, state, totaltrans, comstate, comfreq, behind, at, d, numecs)
             else after == before && |before.temps| + 1 == -JAMSTATE && Worth(totaltrans, numecs)
                  && Templated(totaltrans, comfreq, d)
    ensures Decided(before, after, state, totaltrans, comstate, comfreq, behind, done, at, d, numecs)
  {
    hide Worth, Pick, Built, Templated;
  }

  lemma TemplateGot(before: Tables, after: Tables, state: seq<int>, com: int, numecs: nat)
    requires |after.temps| > 0 && after.temps == before.temps + [after.temps[|after.temps| - 1]]
    requires var t, link := after.temps[|after.temps| - 1], -|before.temps| - 1;
             && IsTemplate(t, state, com, numecs)
             && after.entries == before.entries[|before.rows| + 1 := Against(t, state, link, numecs)]
             && after.queue == Pushed(before.queue, Proto(link, com), numecs)
    ensures GotTemplate(before, after, state, com, numecs)
  {
    hide IsTemplate, Against, Pushed;
  }

  /** A slot is still there after mkprot, if only for the row that has taken its place. */
  lemma StillQueued(order: seq<int>, order': seq<int>, numecs: int, at: int)
    requires Renewed(order, order', numecs) && 0 <= at < |order|
    ensures var place := if at + 1 < |order'| then at + 1 else 0; place < |order'| && order'[place] == order[at]
  {}

  lemma ProtoGot(before: Tables, after: Tables, state: seq<int>, totaltrans: int, com: int, at: int, d: int,
                 numecs: nat)
    requires 0 <= at < |before.queue| && after.temps == before.temps
    requires var link, s := before.queue[at].link, |before.rows| + 1;
             var row := FullRow(link, before.rows, before.temps, numecs);
             && numecs < |row| && numecs < |state|
             && after.entries == before.entries[s := Against(row, state, link, numecs)]
    requires if d * 100 >= totaltrans * NEW_PROTO_DIFF_PERCENTAGE then
               var queue := Pushed(before.queue, Proto(|before.rows| + 1, com), numecs);
               after.queue == Fronted(queue, if at + 1 < |queue| then at + 1 else 0)
             else after.queue == Fronted(before.queue, at)
    ensures GotProto(before, after, state, totaltrans, com, at, d, numecs)
  {
    hide FullRow, Against;
    var queue := Pushed(before.queue, Proto(|before.rows| + 1, com), numecs);
    assert Fronted(queue, 0) == queue;
  }

  lemma RowGot(before: Tables, after: Tables, state: seq<int>, totaltrans: int, behind: int, numecs: nat)
    requires numecs < |state| && after.temps == before.temps
    requires after.entries
             == before.entries[|before.rows| + 1 := MadeEntry(state, numecs, JAMSTATE, totaltrans, behind)]
    ensures GotRow(before, after, state, totaltrans, behind, numecs)
  {}

  lemma BuiltAlone(before: Tables, after: Tables, state: seq<int>, totaltrans: int, comstate: int, comfreq: int,
                   behind: int, numecs: nat)
    requires !Worth(totaltrans, numecs) && numecs < |state| && after.temps == before.temps
             && after.rows == before.rows + [state] && after.queue == before.queue
    requires after.entries
             == before.entries[|before.rows| + 1 := MadeEntry(state, numecs, JAMSTATE, totaltrans, behind)]
    ensures Decided(before, after, state, totaltrans, comstate, comfreq, behind, true, 0, 0, numecs)
  {}

  lemma BuiltWell(before: Tables, after: Tables, state: seq<int>, totaltrans: int, comstate: int, comfreq: int,
                  behind: int, at: int, d: int, numecs: nat)
    requires Worth(totaltrans, numecs) && after.rows == before.rows + [state]
    requires var com := Common(totaltrans, comstate, comfreq);
             if Templated(totaltrans, comfreq, d) then GotTemplate(before, after, state, com, numecs)
             else if d * 100 > totaltrans * ACCEPTABLE_DIFF_PERCENTAGE then
               && GotRow(before, after, state, totaltrans, behind, numecs)
               && after.queue == Pushed(before.queue, Proto(|before.rows| + 1, com), numecs)
             else GotProto(before, after, state, totaltrans, com, at, d, numecs)
    ensures Built(before, after, state, totaltrans, comstate, comfreq, behind, at, d, numecs)
  {
    hide GotTemplate, GotRow, GotProto, Common, Pushed;
  }

  lemma ClosestFirst(v: Tables, state: seq<int>, f: int, d0: int, numecs: nat)
    requires 0 <= f
    ensures Closest(v, state, f, d0, f, f, d0, numecs)
  {}

  lemma ClosestNext(v: Tables, state: seq<int>, f: int, d0: int, k: int, at: int, mindiff: int, d: int, numecs: nat)
    requires Closest(v, state, f, d0, k, at, mindiff, numecs) && f <= k < |v.queue|
    requires d == Distance(v, v.queue[k], state, numecs)
    ensures if d < mindiff then Closest(v, state, f, d0, k + 1, k, d, numecs)
            else Closest(v, state, f, d0, k + 1, at, mindiff, numecs)
  {
    hide Distance;
  }

  class Compressor {
    const numecs: nat
    const usemecs: bool
    const x: PackedTables
    const q: ProtoQueue
    const tecfwd: array<int>
    const tecbck: array<int>
    const cclflags: array<int>
    var tnxt: seq<int>
    var numtemps: int
    ghost var rows: seq<seq<int>>
    ghost var temps: seq<seq<int>>
    ghost var eob: int  // the end-of-buffer state, 0 before it is made

    ghost const Repr: set<object>

    ghost predicate Shape()
    {
      && 1 <= numecs <= CSIZE && q.numecs == numecs
      && Repr == {this, tecfwd, tecbck, cclflags} + x.Repr + q.Repr
      && tecfwd.Length == tecbck.Length == CSIZE + 1 && cclflags.Length == CSIZE
      && tecfwd != tecbck && tecfwd != cclflags && tecbck != cclflags
      && x.Repr !! q.Repr && this !in x.Repr + q.Repr
      && tecfwd !in x.Repr + q.Repr && tecbck !in x.Repr + q.Repr && cclflags !in x.Repr + q.Repr
    }

    /** The meta partition is well linked, unflagged, and respected by every template. */
    ghost predicate MetaOk()
      reads `temps, tecfwd, tecbck, cclflags
      requires Shape()
    {
      usemecs ==>
        && WellLinked(tecfwd[..], tecbck[..], numecs)
        && MetaUniform(tecbck[..], temps, numecs)
        && forall p :: 0 <= p < cclflags.Length ==> cclflags[p] == 0
    }

    ghost predicate TablesOk()
      reads this, x, q, q.prottbl, q.protcomst, q.protsave
      requires Shape()
    {
      TablesFor(x.Entries(), rows)
    }

    /** Everything stored is in order for these entries and rows. */
    ghost predicate TablesFor(entries: map<int, Entry>, rows': seq<seq<int>>)
      reads `numtemps, `temps, `tnxt, `eob, q, q.prottbl, q.protcomst, q.protsave
      requires Shape()
    {
      && numtemps == |temps| < -JAMSTATE
      && AllRows(rows', numecs) && AllRows(temps, numecs) && LiveTemps(temps, numecs)
      && TempsStored(tnxt, temps, numecs)
      && RowsSound(entries, rows', temps, numecs)
      && EobOnly(entries, eob) && Avoids(q.order, q.prottbl[..], eob)
      && QueueSound(q.order, q.prottbl[..], q.protcomst[..], q.protsave[..], rows', temps, numecs)
    }

    ghost predicate Valid()
      reads Repr
    {
      && Shape() && x.Valid() && q.Valid() && MetaOk() && TablesOk() && 0 <= eob <= |rows|
    }

    /** The tables and the queue, as bldtbl's decisions depend on them. */
    ghost function View(): Tables
      reads this, x, q, q.prottbl, q.protcomst
    {
      Tables(x.Entries(), rows, temps, q.Items())
    }

    /** inittbl: empty tables, all classes on one meta list. */
    constructor (numecs: int, usemecs: bool, tables: PackedTables, queue: ProtoQueue)
      requires 1 <= numecs <= CSIZE && queue.numecs == numecs && tables.Repr !! queue.Repr
      requires tables.Valid() && tables.Entries() == map[] && queue.Valid() && queue.order == []
      ensures Valid() && fresh(Repr - tables.Repr - queue.Repr) && x == tables
      ensures this.numecs == numecs && this.usemecs == usemecs && rows == [] && temps == [] && eob == 0
    {
      hide Chain, Consistent, StackOk, WellLinked, Apart, Bounds, Full, Compact, MetaOk, TablesOk,
           PackedTables.Valid, PackedTables.Entries;
      this.numecs, this.usemecs := numecs, usemecs;
      var fwd, bck := new int[CSIZE + 1], new int[CSIZE + 1];
      var flags := new int[CSIZE](_ => 0);
      x, q, tecfwd, tecbck, cclflags := tables, queue, fwd, bck, flags;
      Repr := {this, fwd, bck, flags} + tables.Repr + queue.Repr;
      tnxt := seq(INITIAL_MAX_TEMPLATE_XPAIRS, _ => 0);
      numtemps := 0;
      rows, temps, eob := [], [], 0;
      new;
      if usemecs { InitLinks(tecfwd, tecbck, numecs); }
      NothingYet();
    }

    static method Create(numecs: int, usemecs: bool) returns (c: Compressor)
      requires 1 <= numecs <= CSIZE
      ensures c.Valid() && fresh(c.Repr) && c.numecs == numecs && c.usemecs == usemecs
      ensures c.rows == [] && c.temps == [] && c.eob == 0 && |c.x.base| == INITIAL_MAX_DFAS > 0
    {
      hide PackedTables.Valid, PackedTables.Entries, ProtoQueue.Valid, Compressor.Valid;
      var tables := new PackedTables(INITIAL_MAX_DFAS);
      var queue := new ProtoQueue(numecs);
      c := new Compressor(numecs, usemecs, tables, queue);
    }

    lemma NothingYet()
      requires Shape() && q.Valid() && rows == [] && temps == [] && eob == 0 && numtemps == 0 && x.Entries() == map[]
               && q.order == []
      requires |tnxt| == INITIAL_MAX_TEMPLATE_XPAIRS
      requires usemecs ==> WellLinked(tecfwd[..], tecbck[..], numecs)
                           && forall p :: 0 <= p < cclflags.Length ==> cclflags[p] == 0
      ensures MetaOk() && TablesOk()
    {
      hide WellLinked, Chain, Compact, Full;
    }

    /** The first search of bldtbl: the queued slot for the common state, or the first one when there is none. */
    method FirstProto(state: seq<int>, totaltrans: int, comstate: int, checkcom: bool, ext: array<int>)
      returns (minprot: int, mindiff: int, ghost at: int)
      requires Valid() && |state| == numecs + 1 && ext !in Repr && ext.Length == CSIZE + 1
      modifies ext
      ensures 0 <= at <= |q.order| && minprot == if at < |q.order| then q.order[at] else 0
      ensures mindiff == totaltrans || Best(q.order, at, minprot, ext[..], RowOfSlot(minprot), state, mindiff, numecs)
      ensures FirstPick(View(), state, totaltrans, comstate, checkcom, at, mindiff, numecs)
    {
      hide MetaOk, Best, Chain, HoldsIn, QueueSound, RowsSound, EobOnly, Avoids, EobOnly, AllRows,
           LiveTemps, TempsStored, MetaUniform, WellLinked,
           Consistent, StackOk, Apart, Bounds, Full, Compact, Distance, ItemsOf;
      QueueItems();
      minprot := q.firstprot;
      mindiff := totaltrans;
      at := 0;
      ghost var prev, next := q.protprev[..], q.protnext[..];
      QueueStart(q.order, q.firstprot, q.lastprot, prev, next);
      if checkcom {
        var i := q.firstprot;
        ghost var k := 0;
        while i != 0
          invariant 0 <= k <= |q.order| && i == (if k < |q.order| then q.order[k] else 0)
          invariant minprot == q.firstprot && mindiff == totaltrans && at == 0
          invariant forall j :: 0 <= j < k ==> q.Items()[j].com != comstate
          decreases |q.order| - k
        {
          ChainAt(q.order, q.firstprot, q.lastprot, prev, next, k);
          if q.protcomst[i] == comstate {
            minprot := i;
            at := k;
            mindiff := Compare(state, i, k, ext);
            break;
          }
          i := q.protnext[i];
          k := k + 1;
        }
      } else {
        if q.firstprot != 0 {
          minprot := q.firstprot;
          mindiff := Compare(state, minprot, 0, ext);
        }
      }
    }

    /** The search loops of bldtbl: with mindiff below totaltrans, extrct[extptr] is the difference of state
        against the row of the queued slot minprot, and mindiff counts it. */
    method SelectProto(state: seq<int>, totaltrans: int, comstate: int, checkcom: bool, extrct: seq<array<int>>)
      returns (minprot: int, mindiff: int, extptr: int, ghost at: int)
      requires Valid() && |state| == numecs + 1
      requires |extrct| == 2 && extrct[0] != extrct[1] && forall e :: 0 <= e < 2
                                                            ==> extrct[e] !in Repr && extrct[e].Length == CSIZE + 1
      modifies extrct[0], extrct[1]
      ensures 0 <= extptr < 2
      ensures mindiff == totaltrans
              || Best(q.order, at, minprot, extrct[extptr][..], RowOfSlot(minprot), state, mindiff, numecs)
      ensures Pick(View(), state, totaltrans, comstate, checkcom, at, mindiff, numecs)
    {
      hide MetaOk, Best, Chain, HoldsIn, QueueSound, RowsSound, EobOnly, Avoids, EobOnly, AllRows,
           LiveTemps, TempsStored, MetaUniform, WellLinked,
           Consistent, StackOk, Apart, Bounds, Full, Compact, Distance, ItemsOf, FirstPick, Closest;
      QueueItems();
      extptr := 0;
      ghost var prev, next := q.protprev[..], q.protnext[..];
      minprot, mindiff, at := FirstProto(state, totaltrans, comstate, checkcom, extrct[extptr]);
      ghost var f, d0 := at, mindiff;
      ClosestFirst(View(), state, f, d0, numecs);
      if mindiff * 100 > totaltrans * FIRST_MATCH_DIFF_PERCENTAGE {
        var i := minprot;
        ghost var k := at;
        while i != 0
          invariant 0 <= k <= |q.order| && i == (if k < |q.order| then q.order[k] else 0)
          invariant 0 <= extptr < 2
          invariant mindiff == totaltrans
                    || Best(q.order, at, minprot, extrct[extptr][..], RowOfSlot(minprot), state, mindiff, numecs)
          invariant f <= k && Closest(View(), state, f, d0, k, at, mindiff, numecs)
          decreases |q.order| - k
        {
          ChainAt(q.order, q.firstprot, q.lastprot, prev, next, k);
          var d := Compare(state, i, k, extrct[1 - extptr]);
          ClosestNext(View(), state, f, d0, k, at, mindiff, d, numecs);
          if d < mindiff {
            extptr := 1 - extptr;
            mindiff := d;
            minprot := i;
            at := k;
          }
          i := q.protnext[i];
          k := k + 1;
        }
      }
    }

    /** tbldiff against a queued slot. */
    method Compare(state: seq<int>, s: int, ghost k: int, ext: array<int>) returns (d: int)
      requires Valid() && |state| == numecs + 1 && 0 <= k < |q.order| && q.order[k] == s
      requires ext !in Repr && ext.Length == CSIZE + 1
      modifies ext
      ensures Best(q.order, k, s, ext[..], RowOfSlot(s), state, d, numecs)
      ensures k < |q.Items()| && d == Distance(View(), q.Items()[k], state, numecs)
    {
      hide MetaOk, Chain, HoldsIn, IsDiff, Differing, RowsSound, AllRows, LiveTemps, TempsStored,
           MetaUniform, WellLinked,
           Consistent, StackOk, Apart, Bounds, Full, Compact, QueueSound, ItemsOf;
      QueueItems();
      SlotFacts(q.order, k, q.prottbl[..], q.protcomst[..], q.protsave[..], rows, temps, numecs);
      q.LiveSlot(s);
      FullRowIsRow(q.prottbl[s], rows, temps, numecs);
      d := q.TblDiff(state, s, ext, q.prottbl[s], q.protcomst[s], RowOfSlot(s));
    }

    /** The elements of the queue are those of the live slots. */
    lemma QueueItems()
      requires Valid()
      ensures |q.Items()| == |q.order| && q.prottbl.Length == q.protcomst.Length == MSP
      ensures forall k :: 0 <= k < |q.order| ==>
                && 1 <= q.order[k] < MSP
                && q.Items()[k] == Proto(q.prottbl[q.order[k]], q.protcomst[q.order[k]])
    {
      hide MetaOk, TablesOk;
    }

    /** The full row of the state or template that a slot names. */
    ghost function RowOfSlot(s: int): seq<int>
      reads this, q.prottbl
    {
      if 0 <= s < q.prottbl.Length then FullRow(q.prottbl[s], rows, temps, if numecs >= 0 then numecs else 0) else []
    }

    /** The first loop of mktemplate: the template goes to comstate wherever state goes anywhere at all. */
    method StoreTemplate(state: seq<int>, comstate: int) returns (transset: seq<int>, ghost t: seq<int>)
      requires Shape() && IsRow(state, numecs) && comstate > 0 && numtemps == |temps| + 1 && Spare(state, numecs)
      requires TempsStored(tnxt, temps, numecs)
      modifies this`tnxt
      ensures TempsStored(tnxt, temps + [t], numecs) && numecs * numtemps + numecs < |tnxt|
      ensures t == tnxt[numecs * numtemps..numecs * numtemps + numecs + 1]
      ensures IsTemplate(t, state, comstate, numecs) && IsSupport(transset, state, numecs)
    {
      hide TempsStored, IsTemplate, IsSupport, IsRow, SupportBelow;
      RowLength(state, numecs);
      var tmpbase := numtemps * numecs;
      MulSplit(numecs, 0, numtemps);
      assert tmpbase == numecs * numtemps;
      ghost var tnxt0 := tnxt;
      StoredRoom(tnxt, temps, numecs, tmpbase);
      if tmpbase + numecs >= |tnxt| {
        tnxt := PackedTables.Reallocate(tnxt, MAX_TEMPLATE_XPAIRS_INCREMENT);
      }
      PrefixSame(tnxt0, tnxt, tmpbase + 1);
      transset, t := WriteTemplate(tmpbase, state, comstate);
      TempsStoredKeep(tnxt0, tnxt, temps, numecs, t);
    }

    /** The loop of mktemplate: the entries of the template from tmpbase on, and the classes that it has. */
    method WriteTemplate(tmpbase: int, state: seq<int>, comstate: int) returns (transset: seq<int>, ghost t: seq<int>)
      requires 0 <= tmpbase && tmpbase + numecs < |tnxt| && IsRow(state, numecs) && comstate > 0 && Spare(state, numecs)
      requires 1 <= numecs <= CSIZE
      modifies this`tnxt
      ensures |tnxt| == |old(tnxt)| && tnxt[..tmpbase + 1] == old(tnxt[..tmpbase + 1])
      ensures t == tnxt[tmpbase..tmpbase + numecs + 1]
      ensures IsTemplate(t, state, comstate, numecs) && IsSupport(transset, state, numecs)
    {
      hide IsTemplate, IsSupport, IsRow, SupportBelow;
      RowLength(state, numecs);
      ghost var tnxt0 := tnxt;
      transset := [];
      var i := 1;
      SupportStart(state);
      while i <= numecs
        invariant 1 <= i <= numecs + 1 && |tnxt| == |tnxt0|
        invariant tnxt[..tmpbase + 1] == tnxt0[..tmpbase + 1]
        invariant forall c :: 1 <= c < i ==> tnxt[tmpbase + c] == if state[c] == 0 then 0 else comstate
        invariant SupportBelow(transset, state, i)
      {
        SupportNext(transset, state, i);
        if state[i] == 0 {
          tnxt := tnxt[tmpbase + i := 0];
        } else {
          transset := transset + [i % CSIZE];
          tnxt := tnxt[tmpbase + i := comstate];
        }
        i := i + 1;
      }
      t := tnxt[tmpbase..tmpbase + numecs + 1];
      TemplateMade(t, transset, state, comstate, numecs);
    }

    /** mkprot for a row whose link already stands for it. */
    method Enqueue(row: seq<int>, link: int, comstate: int, ghost rows': seq<seq<int>>, ghost temps': seq<seq<int>>)
      requires Shape() && q.Valid()
      requires QueueSound(q.order, q.prottbl[..], q.protcomst[..], q.protsave[..], rows', temps', numecs)
      requires LinkOk(link, |rows'| + 1, |temps'|) && SameRow(row, FullRow(link, rows', temps', numecs), numecs)
      requires Avoids(q.order, q.prottbl[..], eob) && link != eob
      modifies q.Repr
      ensures Avoids(q.order, q.prottbl[..], eob)
      ensures q.Valid() && q.order != [] && q.firstprot == q.order[0]
      ensures QueueSound(q.order, q.prottbl[..], q.protcomst[..], q.protsave[..], rows', temps', numecs)
      ensures q.prottbl[..] == old(q.prottbl[..])[q.order[0] := link]
      ensures Renewed(old(q.order), q.order, q.numecs)
      ensures q.Items() == Pushed(old(q.Items()), Proto(link, comstate), q.numecs)
    {
      hide Chain, HoldsIn, QueueSound, Compact, RowStored, FullRow, Reused, Avoids, ItemsOf, Pushed, Distinct, Full;
      ghost var order0, tbls0, coms0, save0 := q.order, q.prottbl[..], q.protcomst[..], q.protsave[..];
      SameRowLength(row, FullRow(link, rows', temps', numecs), numecs);
      q.MkProt(row, link, comstate);
      q.LiveSlot(q.order[0]);
      QueueStart(q.order, q.firstprot, q.lastprot, q.protprev[..], q.protnext[..]);
      QueueSoundProt(order0, tbls0, coms0, save0, q.order, q.protsave[..], rows', temps', numecs, link, comstate, row);
      AvoidsProt(order0, tbls0, q.order, eob, link);
    }

    lemma SameRowLength(a: seq<int>, b: seq<int>, numecs: int)
      requires SameRow(a, b, numecs)
      ensures |a| == numecs + 1
    {}

    /** The meta partition is refined by the support of a new template t. */
    method RefineMeta(transset: seq<int>, state: seq<int>, comstate: int, ghost t: seq<int>)
      requires Shape() && MetaOk()
      requires IsSupport(transset, state, numecs) && IsTemplate(t, state, comstate, numecs)
      modifies tecfwd, tecbck, cclflags, this`temps
      ensures temps == old(temps) + [t] && MetaOk()
    {
      hide WellLinked, MetaUniform, RefinedBy, IsSupport, IsTemplate, ClassOk, SameOutside;
      SupportClass(transset, state, numecs);
      ghost var bck0 := tecbck[..];
      temps := temps + [t];
      if usemecs {
        MkEccl(transset, tecfwd, tecbck, numecs, 0, cclflags);
        MetaUniformRefined(bck0, tecbck[..], old(temps), numecs, transset, state, comstate, t);
      }
    }

    /** The first half of mktemplate: the template of state is stored, refines the meta partition and is queued. */
    method AddTemplate(state: seq<int>, comstate: int)
      requires Valid() && IsRow(state, numecs) && Live(state, numecs) && comstate > 0 && |temps| + 1 < -JAMSTATE
      requires Spare(state, numecs)
      modifies this`numtemps, this`tnxt, this`temps, tecfwd, tecbck, cclflags, q.Repr
      ensures Valid() && |temps| == old(|temps|) + 1 && q.order != [] && q.firstprot == q.order[0]
      ensures 0 <= q.firstprot < q.prottbl.Length && q.prottbl[q.firstprot] == -numtemps == -|temps|
      ensures temps == old(temps) + [temps[|temps| - 1]] && IsTemplate(temps[|temps| - 1], state, comstate, numecs)
      ensures q.Items() == Pushed(old(q.Items()), Proto(-|temps|, comstate), numecs)
    {
      hide Chain, HoldsIn, QueueSound, RowsSound, EobOnly, Avoids, AllRows, LiveTemps, TempsStored,
           MetaUniform, WellLinked, Consistent, StackOk,
           Apart, Bounds, Full, Compact, IsTemplate, IsSupport, IsDiff, Sound, FullRow, IsRow, Live, Spare,
           ProtoQueue.Valid, PackedTables.Valid, ProtoQueue.Items, Pushed, Renewed;
      numtemps := numtemps + 1;
      ghost var t;
      var transset;
      transset, t := StoreTemplate(state, comstate);
      TemplateAdded(x.Entries(), rows, temps, numecs, t, state, comstate);
      QueueSoundGrow(q.order, q.prottbl[..], q.protcomst[..], q.protsave[..], rows, temps, numecs, [], [t]);
      assert rows + [] == rows;
      RefineMeta(transset, state, comstate, t);
      Enqueue(tnxt[numecs * numtemps..numecs * numtemps + numecs + 1], -numtemps, comstate, rows, temps);
      q.LiveSlot(q.order[0]);
    }

    /** mkentry for the next state: with it row is one of the rows. */
    method Enter(ext: seq<int>, statenum: int, link: int, totaltrans: int, behind: int, ghost row: seq<int>)
      requires Valid() && IsRow(row, numecs) && numecs < |ext| && statenum == |rows| + 1 < |x.base| && link != eob
      requires 0 <= totaltrans - |Explicit(ext, numecs, link)| <= 1
      requires Sound(MadeEntry(ext, numecs, link, totaltrans, behind), row, statenum, rows, temps, numecs)
      modifies x.Repr, this`rows
      ensures Valid() && rows == old(rows) + [row] && |x.base| == old(|x.base|)
      ensures Gained(old(x.Entries()), x.Entries(), statenum, totaltrans > 0 || link != JAMSTATE)
      ensures x.Entries() == old(x.Entries())[statenum := MadeEntry(ext, numecs, link, totaltrans, behind)]
      ensures q.Items() == old(q.Items())
    {
      hide *;
      Opened();
      Disjoint();
      EnterReady(ext, link, totaltrans, behind, row);
      x.MkEntry(ext, numecs, statenum, link, totaltrans, behind);
      rows := rows + [row];
      TablesMade();
      Together();
    }

    lemma EnterReady(ext: seq<int>, link: int, totaltrans: int, behind: int, row: seq<int>)
      requires Valid() && IsRow(row, numecs) && numecs < |ext| && link != eob
      requires 0 <= totaltrans - |Explicit(ext, numecs, link)| <= 1
      requires Sound(MadeEntry(ext, numecs, link, totaltrans, behind), row, |rows| + 1, rows, temps, numecs)
      ensures var e := MadeEntry(ext, numecs, link, totaltrans, behind);
              && |rows| + 1 !in x.Entries() && TablesFor(x.Entries()[|rows| + 1 := e], rows + [row])
              && Gained(x.Entries(), x.Entries()[|rows| + 1 := e], |rows| + 1, totaltrans > 0 || link != JAMSTATE)
    {
      hide *;
      Opened();
      Disjoint();
      NoZero(ext, numecs, link, totaltrans, behind);
      Grown(row, MadeEntry(ext, numecs, link, totaltrans, behind));
      MadeLive(x.Entries(), |rows| + 1, ext, numecs, link, totaltrans, behind);
    }

    lemma Opened()
      requires Valid()
      ensures Shape() && x.Valid() && q.Valid() && MetaOk() && TablesOk() && 0 <= eob <= |rows|
    {}

    lemma Together()
      requires Shape() && x.Valid() && q.Valid() && MetaOk() && TablesOk() && 0 <= eob <= |rows|
      ensures Valid()
    {}

    lemma Disjoint()
      requires Shape()
      ensures 1 <= numecs <= CSIZE && this !in x.Repr && this !in q.Repr
      ensures tecfwd !in x.Repr && tecbck !in x.Repr && cclflags !in x.Repr && tecfwd !in q.Repr
              && tecbck !in q.Repr && cclflags !in q.Repr
      ensures q !in x.Repr && q.protprev !in x.Repr && q.protnext !in x.Repr && q.prottbl !in x.Repr
              && q.protcomst !in x.Repr
      ensures q.protsave !in x.Repr && x !in q.Repr && x.onestate !in q.Repr && x.onesym !in q.Repr
              && x.onenext !in q.Repr && x.onedef !in q.Repr
    {}

    lemma Grown(row: seq<int>, e: Entry)
      requires Valid() && IsRow(row, numecs) && Sound(e, row, |rows| + 1, rows, temps, numecs)
               && 0 !in e.ext && e.link != eob
      ensures |rows| + 1 !in x.Entries() && TablesFor(x.Entries()[|rows| + 1 := e], rows + [row])
    {
      hide MetaOk, Chain, HoldsIn, QueueSound, RowsSound, EobOnly, Avoids, AllRows, LiveTemps,
           TempsStored, WellLinked, Consistent, StackOk,
           Apart, Bounds, Full, Compact, Sound, IsRow;
      EnterFacts(x.Entries(), rows, temps, numecs, row, e, eob);
      QueueSoundGrow(q.order, q.prottbl[..], q.protcomst[..], q.protsave[..], rows, temps, numecs, [row], []);
      assert temps + [] == temps;
    }

    lemma TableFacts()
      requires Shape() && TablesOk()
      ensures numtemps == |temps| < -JAMSTATE && AllRows(rows, numecs) && AllRows(temps, numecs)
              && LiveTemps(temps, numecs)
      ensures TempsStored(tnxt, temps, numecs) && RowsSound(x.Entries(), rows, temps, numecs)
              && EobOnly(x.Entries(), eob)
      ensures Avoids(q.order, q.prottbl[..], eob)
              && QueueSound(q.order, q.prottbl[..], q.protcomst[..], q.protsave[..], rows, temps, numecs)
    {}

    lemma TablesMade()
      requires Shape() && TablesFor(x.Entries(), rows)
      ensures TablesOk()
    {}

    /** mkprot for a state that is about to be entered. */
    method EnqueueNew(state: seq<int>, link: int, comstate: int, ghost entries: map<int, Entry>,
                      ghost rows': seq<seq<int>>)
      requires Shape() && q.Valid() && TablesFor(entries, rows') && link != eob
      requires LinkOk(link, |rows'| + 1, |temps|) && SameRow(state, FullRow(link, rows', temps, numecs), numecs)
      modifies q.Repr
      ensures q.Valid() && TablesFor(entries, rows')
      ensures q.Items() == Pushed(old(q.Items()), Proto(link, comstate), q.numecs)
    {
      hide HoldsIn, QueueSound, RowsSound, EobOnly, Avoids, AllRows, LiveTemps, TempsStored, FullRow,
           SameRow, ProtoQueue.Valid, PackedTables.Valid, ProtoQueue.Items, Pushed, Renewed;
      Enqueue(state, link, comstate, rows', temps);
    }

    lemma EnterFacts(entries: map<int, Entry>, rows: seq<seq<int>>, temps: seq<seq<int>>, numecs: nat, row: seq<int>,
                     e: Entry, eob: int)
      requires RowsSound(entries, rows, temps, numecs) && |temps| < -JAMSTATE && AllRows(rows, numecs)
               && IsRow(row, numecs)
      requires Sound(e, row, |rows| + 1, rows, temps, numecs)
      ensures |rows| + 1 !in entries
      ensures EobOnly(entries, eob) && 0 <= eob <= |rows| && 0 !in e.ext && e.link != eob
              ==> EobOnly(entries[|rows| + 1 := e], eob)
      ensures RowsSound(entries[|rows| + 1 := e], rows + [row], temps, numecs) && AllRows(rows + [row], numecs)
    {
      RowsSoundRow(entries, rows, temps, numecs, row, e);
    }

    lemma NoZero(ext: seq<int>, n: nat, link: int, totaltrans: int, behind: int)
      requires n < |ext|
      ensures 0 !in MadeEntry(ext, n, link, totaltrans, behind).ext
      ensures MadeEntry(ext, n, link, totaltrans, behind).link == link
    {}

    /** The end-of-buffer state: stack1 with a jam on symbol 0 and nothing else. */
    method EnterEob(statenum: int)
      requires Valid() && statenum == |rows| + 1 < |x.base| && eob == 0
      modifies x.Repr, this`rows, this`eob
      ensures Valid() && |x.base| == old(|x.base|) && eob == statenum && |rows| == old(|rows|) + 1
      ensures rows == old(rows) + [rows[statenum - 1]] && |rows[statenum - 1]| == numecs + 1
              && Nonzero(rows[statenum - 1], numecs) == {}
      ensures temps == old(temps) && Gained(old(x.Entries()), x.Entries(), statenum, true)
      ensures 0 in x.Entries()[statenum].ext
    {
      hide MetaOk, Chain, HoldsIn, QueueSound, RowsSound, EobOnly, Avoids, AllRows, LiveTemps,
           TempsStored, MetaUniform, WellLinked, Consistent, StackOk,
           Apart, Bounds, Full, Compact, FullRow, Sound;
      ghost var row := seq(numecs + 1, _ => 0);
      ghost var e := Entry(map[0 := 0], JAMSTATE);
      EobSound(rows, temps, numecs, row, e);
      EnterFacts(x.Entries(), rows, temps, numecs, row, e, 0);
      EobEntered(x.Entries(), rows, temps, numecs, e);
      QueueSoundGrow(q.order, q.prottbl[..], q.protcomst[..], q.protsave[..], rows, temps, numecs, [row], []);
      assert temps + [] == temps;
      AvoidsNew(q.order, q.prottbl[..], q.protcomst[..], q.protsave[..], rows, temps, numecs, statenum);
      x.Stack1(statenum, 0, 0, JAMSTATE);
      rows := rows + [row];
      eob := statenum;
    }

    lemma EobSound(rows: seq<seq<int>>, temps: seq<seq<int>>, numecs: nat, row: seq<int>, e: Entry)
      requires row == seq(numecs + 1, _ => 0) && e == Entry(map[0 := 0], JAMSTATE) && |temps| < -JAMSTATE
      ensures Sound(e, row, |rows| + 1, rows, temps, numecs)
    {}

    lemma EobEntered(entries: map<int, Entry>, rows: seq<seq<int>>, temps: seq<seq<int>>, numecs: nat, e: Entry)
      requires RowsSound(entries, rows, temps, numecs) && EobOnly(entries, 0) && 0 in e.ext && e.link == JAMSTATE
      ensures EobOnly(entries[|rows| + 1 := e], |rows| + 1)
    {}

    /** mkentry for a state that is close to a queued row. */
    method EnterDiff(state: seq<int>, statenum: int, s: int, ghost k: int, ext: array<int>, d: int)
      requires ext.Length == CSIZE + 1
      requires Valid() && IsRow(state, numecs) && statenum == |rows| + 1 < |x.base|
      requires Best(q.order, k, s, ext[..], RowOfSlot(s), state, d, numecs)
      modifies x.Repr, this`rows
      ensures Valid() && rows == old(rows) + [state] && |x.base| == old(|x.base|)
      ensures Gained(old(x.Entries()), x.Entries(), statenum, true)
      ensures 0 <= s < q.prottbl.Length && |old(RowOfSlot(s))| == |state| == numecs + 1
      ensures x.Entries()
              == old(x.Entries())[statenum := Against(old(RowOfSlot(s)), state, q.prottbl[s], numecs)]
      ensures q.Items() == old(q.Items())
    {
      hide MetaOk, Chain, HoldsIn, QueueSound, RowsSound, EobOnly, Avoids, AllRows, LiveTemps,
           TempsStored, MetaUniform, WellLinked, Consistent, StackOk,
           Apart, Bounds, Full, Compact, Sound, FullRow, Explicit, IsDiff, Differing, Gained, MadeEntry, Against,
           ItemsOf;
      SlotFacts(q.order, k, q.prottbl[..], q.protcomst[..], q.protsave[..], rows, temps, numecs);
      DiffEntry(ext[..], state, statenum, q.prottbl[s], rows, temps, numecs);
      MadeExactly(ext[..], numecs, q.prottbl[s], d, 0);
      AvoidsMove(q.order, k, q.prottbl[..], eob);
      Enter(ext[..], statenum, q.prottbl[s], d, 0, state);
    }

    /** mktemplate: a template is made from state, and state becomes its difference against it. */
    method MkTemplate(state: seq<int>, statenum: int, comstate: int)
      requires Valid() && IsRow(state, numecs) && Live(state, numecs) && comstate > 0 && Spare(state, numecs)
      requires statenum == |rows| + 1 < |x.base| && |temps| + 1 < -JAMSTATE
      modifies Repr
      ensures Valid() && rows == old(rows) + [state] && |x.base| == old(|x.base|) && |temps| == old(|temps|) + 1
      ensures eob == old(eob) && Gained(old(x.Entries()), x.Entries(), statenum, true)
      ensures GotTemplate(old(View()), View(), state, comstate, numecs)
    {
      hide *;
      Opened();
      Disjoint();
      ViewIs();
      ghost var before := View();
      AddTemplate(state, comstate);
      FrontTemplate();
      EnterFirst(state, statenum);
      ViewIs();
      TemplateGot(before, View(), state, comstate, numecs);
    }

    /** The second half of mktemplate: mkentry for a row that is compared with the proto in front. */
    method EnterFirst(state: seq<int>, statenum: int)
      requires Valid() && IsRow(state, numecs) && statenum == |rows| + 1 < |x.base|
      requires q.order != [] && q.firstprot == q.order[0] && 0 <= q.firstprot < q.prottbl.Length
      modifies x.Repr, this`rows
      ensures Valid() && rows == old(rows) + [state] && |x.base| == old(|x.base|)
      ensures Gained(old(x.Entries()), x.Entries(), statenum, true) && q.Items() == old(q.Items())
      ensures |old(RowOfSlot(q.firstprot))| == |state| == numecs + 1
      ensures x.Entries() == old(x.Entries())[statenum := Against(old(RowOfSlot(q.firstprot)), state,
                q.prottbl[q.firstprot], numecs)]
    {
      hide *;
      Opened();
      Disjoint();
      RowLength(state, numecs);
      var tmp := new int[CSIZE + 1];
      var numdiff := Compare(state, q.firstprot, 0, tmp);
      Opened();
      EnterDiff(state, statenum, q.firstprot, 0, tmp, numdiff);
    }

    /** The proto in front stands for the last template. */
    lemma FrontTemplate()
      requires Valid() && temps != [] && 0 <= q.firstprot < q.prottbl.Length && q.prottbl[q.firstprot] == -|temps|
      ensures RowOfSlot(q.firstprot) == temps[|temps| - 1]
    {
      hide *;
      Counted();
      Opened();
      Disjoint();
      RowIs(q.firstprot);
      LastFull(rows, temps, numecs);
    }

    lemma LastFull(rows: seq<seq<int>>, temps: seq<seq<int>>, numecs: nat)
      requires 0 < |temps| < -JAMSTATE
      ensures FullRow(-|temps|, rows, temps, numecs) == temps[|temps| - 1]
    {}

    lemma RowLength(row: seq<int>, numecs: int)
      requires IsRow(row, numecs)
      ensures |row| == numecs + 1
    {}

    /** mkprot followed by mkentry for a row without a good match. */
    method ProtoAndEntry(state: seq<int>, statenum: int, comstate: int, totaltrans: int, behind: int)
      requires Valid() && IsRow(state, numecs) && 0 <= totaltrans - |Nonzero(state, numecs)| <= 1
      requires statenum == |rows| + 1 < |x.base|
      modifies x.Repr, q.Repr, this`rows
      ensures Valid() && rows == old(rows) + [state] && |x.base| == old(|x.base|)
      ensures Gained(old(x.Entries()), x.Entries(), statenum, totaltrans > 0)
      ensures x.Entries() == old(x.Entries())[statenum := MadeEntry(state, numecs, JAMSTATE, totaltrans, behind)]
      ensures q.Items() == Pushed(old(q.Items()), Proto(statenum, comstate), numecs)
    {
      hide *;
      Opened();
      Disjoint();
      RowLength(state, numecs);
      ghost var e := MadeEntry(state, numecs, JAMSTATE, totaltrans, behind);
      EntryReady(state, totaltrans, behind, e);
      EnqueueNew(state, statenum, comstate, x.Entries()[statenum := e], rows + [state]);
      x.MkEntry(state, numecs, statenum, JAMSTATE, totaltrans, behind);
      rows := rows + [state];
      TablesMade();
      Together();
    }

    /** What mkentry is going to write for a row of its own is in order. */
    lemma EntryReady(state: seq<int>, totaltrans: int, behind: int, e: Entry)
      requires Valid() && IsRow(state, numecs) && 0 <= totaltrans - |Nonzero(state, numecs)| <= 1
      requires e == MadeEntry(state, numecs, JAMSTATE, totaltrans, behind)
      ensures numecs < |state| && 0 <= totaltrans - |Explicit(state, numecs, JAMSTATE)| <= 1
      ensures |rows| + 1 !in x.Entries() && TablesFor(x.Entries()[|rows| + 1 := e], rows + [state])
      ensures Gained(x.Entries(), x.Entries()[|rows| + 1 := e], |rows| + 1, totaltrans > 0)
      ensures SameRow(state, FullRow(|rows| + 1, rows + [state], temps, numecs), numecs)
              && LinkOk(|rows| + 1, |rows + [state]| + 1, |temps|) && |rows| + 1 != eob
    {
      hide *;
      Opened();
      Disjoint();
      RowLength(state, numecs);
      TableFacts();
      StrayEntry(state, totaltrans, behind, |rows| + 1, rows, temps, numecs);
      NoZero(state, numecs, JAMSTATE, totaltrans, behind);
      Grown(state, e);
      MadeLive(x.Entries(), |rows| + 1, state, numecs, JAMSTATE, totaltrans, behind);
      LastRow(rows, temps, numecs, state);
    }

    lemma LastRow(rows: seq<seq<int>>, temps: seq<seq<int>>, numecs: nat, row: seq<int>)
      requires IsRow(row, numecs)
      ensures |row| == numecs + 1 && SameRow(row, FullRow(|rows| + 1, rows + [row], temps, numecs), numecs)
      ensures LinkOk(|rows| + 1, |rows + [row]| + 1, |temps|)
    {
      assert (rows + [row])[|rows|] == row;
    }

    /** mkprot for the state just entered. */
    method QueueState(state: seq<int>, statenum: int, comstate: int)
      requires Valid() && IsRow(state, numecs) && statenum == |rows| >= 1 && rows[|rows| - 1] == state
               && statenum != eob
      modifies q.Repr
      ensures Valid() && Renewed(old(q.order), q.order, numecs)
      ensures q.Items() == Pushed(old(q.Items()), Proto(statenum, comstate), numecs)
    {
      hide MetaOk, Chain, HoldsIn, QueueSound, RowsSound, EobOnly, Avoids, AllRows, LiveTemps,
           TempsStored, MetaUniform, WellLinked, Consistent, StackOk,
           Apart, Bounds, Full, Compact, Sound, FullRow, IsRow, SameRow, ProtoQueue.Items, Pushed, Renewed;
      LastRow(rows[..|rows| - 1], temps, numecs, state);
      assert rows == rows[..|rows| - 1] + [state];
      Enqueue(state, statenum, comstate, rows, temps);
    }

    /** mv2front for the slot that was used. */
    method Refresh(s: int, ghost at: int)
      requires Valid() && 0 <= at < |q.order| == |q.Items()| && q.order[at] == s
      modifies q.Repr
      ensures Valid() && q.Items() == Fronted(old(q.Items()), at)
    {
      hide MetaOk, Chain, HoldsIn, QueueSound, RowsSound, EobOnly, Avoids, AllRows, LiveTemps,
           TempsStored, MetaUniform, WellLinked, Consistent, StackOk,
           Apart, Bounds, Full, Compact, MovedToFront, ItemsOf, Fronted, Distinct;
      ghost var order0 := q.order;
      q.Slots();
      ghost var k := q.Mv2Front(s);
      SamePlace(order0, k, at);
      AvoidsMove(order0, k, q.prottbl[..], eob);
      QueueSoundMove(order0, k, q.prottbl[..], q.protcomst[..], q.protsave[..], rows, temps, numecs);
    }

    lemma BestSlot(order: seq<int>, at: int, minprot: int, ext: seq<int>, row: seq<int>, state: seq<int>, mindiff: int,
                   numecs: int)
      requires Best(order, at, minprot, ext, row, state, mindiff, numecs)
      ensures 0 <= at < |order| && order[at] == minprot
    {}

    /** increase_max_dfas. */
    method MoreDfas()
      requires Valid()
      modifies x`base, x`def
      ensures Valid() && |x.base| == old(|x.base|) + MAX_DFAS_INCREMENT > old(|x.base|)
      ensures x.Entries() == old(x.Entries())
    {
      hide MetaOk, Chain, HoldsIn, QueueSound, RowsSound, EobOnly, Avoids, AllRows, LiveTemps,
           TempsStored, MetaUniform, WellLinked,
           Consistent, StackOk, Apart, Bounds, Full, Compact;
      x.IncreaseMaxDfas(MAX_DFAS_INCREMENT);
    }

    lemma Counted()
      requires Valid()
      ensures numtemps == |temps| < -JAMSTATE
    {}

    /** bldtbl: the row of the next state is added to the tables, whatever entry is chosen for it. totaltrans may count
        a transition on NUL that has been taken out of state. The model stops where a row would get template 32766:
        flex goes on, with tables that do not hold this row. d is the distance of the proto at position at in the
        queue, which the row is compared with in the end. */
    method BldTbl(state: seq<int>, statenum: int, totaltrans: int, comstate: int, comfreq: int, behind: int)
      returns (r: Result<()>, ghost at: int, ghost d: int)
      requires Valid() && IsRow(state, numecs) && Counts(state, totaltrans, comstate, comfreq, numecs)
      requires statenum == |rows| + 1 < |x.base| && |temps| <= |rows|
      modifies Repr
      ensures Valid() && |x.base| == old(|x.base|) && |temps| <= |rows| && eob == old(eob)
      ensures r.Success? ==> rows == old(rows) + [state]
                             && Gained(old(x.Entries()), x.Entries(), statenum, totaltrans > 0)
      ensures r.Failure? ==> r.error == TooManyTemplates && rows == old(rows) && Misled(state, rows, temps, numecs)
      ensures |temps| <= |old(temps)| + if Worth(totaltrans, numecs) then 1 else 0
      ensures Decided(old(View()), View(), state, totaltrans, comstate, comfreq, behind, r.Success?, at, d, numecs)
    {
      hide *;
      WorthIs(totaltrans, numecs);
      if totaltrans * 100 < numecs * PROTO_SIZE_PERCENTAGE {
        EnterAlone(state, statenum, totaltrans, comstate, comfreq, behind);
        r, at, d := Success(()), 0, 0;
      } else {
        r, at, d := BldCompact(state, statenum, totaltrans, comstate, comfreq, behind);
      }
    }

    /** The call of mkentry for a row that is not worth comparing. */
    method EnterAlone(state: seq<int>, statenum: int, totaltrans: int, comstate: int, comfreq: int, behind: int)
      requires Valid() && IsRow(state, numecs) && Counts(state, totaltrans, comstate, comfreq, numecs)
      requires statenum == |rows| + 1 < |x.base| && |temps| <= |rows| && !Worth(totaltrans, numecs)
      modifies Repr
      ensures Valid() && |x.base| == old(|x.base|) && eob == old(eob) && temps == old(temps)
      ensures rows == old(rows) + [state] && Gained(old(x.Entries()), x.Entries(), statenum, totaltrans > 0)
      ensures Decided(old(View()), View(), state, totaltrans, comstate, comfreq, behind, true, 0, 0, numecs)
    {
      hide *;
      Opened();
      Disjoint();
      ViewIs();
      RowLength(state, numecs);
      CountsRange(state, totaltrans, comstate, comfreq, numecs);
      ghost var before := View();
      StrayEntry(state, totaltrans, behind, statenum, rows, temps, numecs);
      EobPositive();
      Enter(state, statenum, JAMSTATE, totaltrans, behind, state);
      ViewIs();
      BuiltAlone(before, View(), state, totaltrans, comstate, comfreq, behind, numecs);
    }

    /** The part of bldtbl for rows worth comparing with the queued ones. */
    method BldCompact(state: seq<int>, statenum: int, totaltrans: int, comst: int, comfreq: int, behind: int)
      returns (r: Result<()>, ghost at: int, ghost mindiff: int)
      requires Valid() && IsRow(state, numecs) && Counts(state, totaltrans, comst, comfreq, numecs)
      requires Worth(totaltrans, numecs)
      requires statenum == |rows| + 1 < |x.base| && |temps| <= |rows|
      modifies Repr
      ensures Valid() && |x.base| == old(|x.base|) && |temps| <= |rows| && eob == old(eob)
      ensures r.Success? ==> rows == old(rows) + [state]
                             && Gained(old(x.Entries()), x.Entries(), statenum, totaltrans > 0)
      ensures r.Failure? ==> r.error == TooManyTemplates && rows == old(rows) && Misled(state, rows, temps, numecs)
      ensures |temps| <= |old(temps)| + if Worth(totaltrans, numecs) then 1 else 0
      ensures Decided(old(View()), View(), state, totaltrans, comst, comfreq, behind, r.Success?, at, mindiff, numecs)
    {
      hide MetaOk, TablesOk, Best, Live, IsRow, Nonzero, Sound, Explicit, Occurs, Misled, Counts, Gained, Spare,
           GotTemplate, GotProto, GotRow, Pick, Built, Decided, ProtoQueue.Items, ProtoQueue.Valid,
           PackedTables.Valid, Pushed, MadeEntry;
      RowLength(state, numecs);
      CountsLive(state, totaltrans, comst, comfreq, numecs);
      ghost var before := View();
      var comstate := comst;
      var extrct0 := new int[CSIZE + 1];
      var extrct1 := new int[CSIZE + 1];
      var extrct := [extrct0, extrct1];
      var checkcom := comfreq * 100 > totaltrans * CHECK_COM_PERCENTAGE;
      if !checkcom { comstate := 0; }
      var minprot, diff, extptr;
      minprot, diff, extptr, at := SelectProto(state, totaltrans, comst, checkcom, extrct);
      mindiff := diff;
      if diff * 100 > totaltrans * ACCEPTABLE_DIFF_PERCENTAGE {
        if comfreq * 100 >= totaltrans * TEMPLATE_SAME_PERCENTAGE {
          Counted();
          if numtemps + 1 == -JAMSTATE {
            LastTemplate(state, comstate, rows, temps, numecs);
            NowDecided(before, View(), state, totaltrans, comst, comfreq, behind, false, at, mindiff, numecs);
            return Failure(TooManyTemplates), at, mindiff;
          }
          MkTemplate(state, statenum, comstate);
        } else {
          ProtoAndEntry(state, statenum, comstate, totaltrans, behind);
          RowGot(before, View(), state, totaltrans, behind, numecs);
        }
      } else {
        EnterBest(state, statenum, comstate, totaltrans, minprot, diff, at, extrct[extptr]);
        GainedLive(old(x.Entries()), x.Entries(), statenum, totaltrans > 0);
      }
      BuiltWell(before, View(), state, totaltrans, comst, comfreq, behind, at, mindiff, numecs);
      NowDecided(before, View(), state, totaltrans, comst, comfreq, behind, true, at, mindiff, numecs);
      return Success(()), at, mindiff;
    }

    /** The last case of bldtbl: the row becomes its difference to the proto that fits best. */
    method EnterBest(state: seq<int>, statenum: int, comstate: int, totaltrans: int, minprot: int, mindiff: int,
                     ghost at: int, ext: array<int>)
      requires Valid() && IsRow(state, numecs) && statenum == |rows| + 1 < |x.base| && ext.Length == CSIZE + 1
      requires Best(q.order, at, minprot, ext[..], RowOfSlot(minprot), state, mindiff, numecs)
      modifies x.Repr, q.Repr, this`rows
      ensures Valid() && rows == old(rows) + [state] && |x.base| == old(|x.base|)
      ensures Gained(old(x.Entries()), x.Entries(), statenum, true)
      ensures GotProto(old(View()), View(), state, totaltrans, comstate, at, mindiff, numecs)
    {
      hide *;
      Opened();
      Disjoint();
      ghost var before, order0 := View(), q.order;
      BestSlot(q.order, at, minprot, ext[..], RowOfSlot(minprot), state, mindiff, numecs);
      QueueItems();
      ViewIs();
      RowIs(minprot);
      EnterDiff(state, statenum, minprot, at, ext, mindiff);
      ghost var place := at;
      if mindiff * 100 >= totaltrans * NEW_PROTO_DIFF_PERCENTAGE {
        QueueState(state, statenum, comstate);
        QueueItems();
        StillQueued(order0, q.order, numecs, at);
        place := if at + 1 < |q.order| then at + 1 else 0;
      }
      Refresh(minprot, place);
      ViewIs();
      ProtoGot(before, View(), state, totaltrans, comstate, at, mindiff, numecs);
    }

    lemma EobPositive()
      requires Valid()
      ensures eob >= 0 > JAMSTATE
    {}

    lemma ViewIs()
      ensures View() == Tables(x.Entries(), rows, temps, q.Items())
    {}

    lemma RowIs(s: int)
      requires 0 <= s < q.prottbl.Length && 0 <= numecs
      ensures RowOfSlot(s) == FullRow(q.prottbl[s], rows, temps, numecs)
    {}

    lemma SupportClass(c: seq<int>, state: seq<int>, numecs: nat)
      requires IsSupport(c, state, numecs) && numecs <= CSIZE
      ensures |c| <= CSIZE && Mapped(c, 0) == c && ClassOk(c, numecs)
    {}

    lemma TemplateAdded(entries: map<int, Entry>, rows: seq<seq<int>>, temps: seq<seq<int>>, numecs: nat, t: seq<int>,
                        state: seq<int>, comstate: int)
      requires RowsSound(entries, rows, temps, numecs) && |temps| + 1 < -JAMSTATE && AllRows(temps, numecs)
      requires IsTemplate(t, state, comstate, numecs) && comstate > 0 && Live(state, numecs) && LiveTemps(temps, numecs)
      ensures RowsSound(entries, rows, temps + [t], numecs) && AllRows(temps + [t], numecs)
              && LiveTemps(temps + [t], numecs)
      ensures LinkOk(-|temps| - 1, |rows| + 1, |temps| + 1) && FullRow(-|temps| - 1, rows, temps + [t], numecs) == t
      ensures |t| == numecs + 1 && SameRow(t, t, numecs)
    {
      RowsSoundTemplate(entries, rows, temps, numecs, t);
      var c :| 1 <= c <= numecs && state[c] > 0;
      assert t[c] > 0;
    }

    /** cmptmps: each template gets the entry lastdfa + i + 1, indexed by meta class. */
    method CmpTmps(lastdfa: int) returns (nummecs: int)
      requires Valid() && lastdfa == |rows| && |temps| <= |rows|
      modifies tecbck, x.Repr
      ensures x.Valid() && 0 <= nummecs <= numecs
      ensures forall c :: 1 <= c <= numecs ==> 1 <= Abs(Num()[c]) <= numecs
      ensures lastdfa + numtemps + 1 < |x.base|
      ensures Finished(x.Entries(), old(x.Entries()), temps, Num(), lastdfa, numecs, numtemps)
    {
      hide Chain, HoldsIn, QueueSound, RowsSound, EobOnly, Avoids, AllRows, LiveTemps, TempsStored,
           MetaUniform, WellLinked, Consistent, StackOk,
           Apart, Bounds, Full, Compact, Numbered, Finished, ByNumber, Numbers, TempSound, Explicit,
               IsRow, SameOutside, Live, PackedTables.Valid;
      ghost var entries0, bck0 := x.Entries(), tecbck[..];
      TableFacts();
      nummecs := NumberMeta();
      ghost var num := Num();
      NumbersAll(usemecs, bck0, num, temps, numecs, nummecs);
      while lastdfa + numtemps + 1 >= |x.base|
        invariant x.Valid() && x.Entries() == entries0 && Num() == num
      {
        x.IncreaseMaxDfas(MAX_DFAS_INCREMENT);
      }
      FinishedStart(entries0, rows, temps, num, lastdfa, numecs);
      StoreTemps(lastdfa, nummecs, entries0, num);
    }

    /** The call of cre8ecs in cmptmps. */
    method NumberMeta() returns (nummecs: int)
      requires Shape() && MetaOk()
      modifies tecbck
      ensures 0 <= nummecs <= numecs
      ensures usemecs ==> Numbered(old(tecbck[..]), tecbck[..], numecs, nummecs)
                          && MetaUniform(old(tecbck[..]), temps, numecs)
      ensures !usemecs ==> nummecs == numecs
    {
      hide WellLinked, MetaUniform, Numbered, SameOutside;
      if usemecs {
        nummecs := Cre8Ecs(tecfwd, tecbck, numecs);
      } else {
        nummecs := numecs;
      }
    }

    /** The loop of cmptmps over the templates. */
    method StoreTemps(lastdfa: int, nummecs: int, ghost entries0: map<int, Entry>, ghost num: seq<int>)
      requires Shape() && x.Valid() && 0 <= lastdfa && lastdfa + numtemps + 1 < |x.base| && 0 <= nummecs <= numecs
               && num == Num()
      requires numtemps == |temps| && TempsStored(tnxt, temps, numecs)
      requires forall k :: 0 <= k < |temps| ==> Numbers(num, temps[k], numecs, nummecs) && IsRow(temps[k], numecs)
                                                && Live(temps[k], numecs)
      requires Finished(x.Entries(), entries0, temps, num, lastdfa, numecs, 0)
      modifies x.Repr
      ensures x.Valid() && |x.base| == old(|x.base|)
              && Finished(x.Entries(), entries0, temps, num, lastdfa, numecs, numtemps)
    {
      hide TempsStored, Finished, ByNumber, Numbers, TempSound, Explicit, IsRow, Live, PackedTables.Valid,
           PackedTables.Entries, MadeEntry;
      var tmp := new int[CSIZE + 1];
      var i := 1;
      while i <= numtemps
        invariant 1 <= i <= numtemps + 1
        invariant x.Valid() && |x.base| == old(|x.base|)
        invariant Finished(x.Entries(), entries0, temps, num, lastdfa, numecs, i - 1)
      {
        var totaltrans := FillTemplate(i, nummecs, tmp);
        FinishedStep(x.Entries(), entries0, temps, num, lastdfa, numecs, nummecs, i - 1, tmp[..]);
        MadeExactly(tmp[..], nummecs, JAMSTATE, totaltrans, 0);
        x.MkEntry(tmp[..], nummecs, lastdfa + i + 1, JAMSTATE, totaltrans, 0);
        i := i + 1;
      }
    }

    /** The end of ntod: templates, saved one-transition entries, then the jam entry. */
    method FinishTables(lastdfa: int, endOfBufferState: int) returns (jamstate: int, jambase: int)
      requires Valid() && lastdfa == |rows| && |temps| <= |rows|
      modifies tecbck, x.Repr, this`numtemps
      ensures jamstate == lastdfa + 1 && numtemps == old(numtemps) + 1
      ensures lastdfa + numtemps < |x.base| == |x.def| && 0 <= x.tblend < |x.chk|
      ensures Consistent(x.nxt, x.chk, x.base, x.def, x.tblend, x.placed)
      ensures jambase > 0 && x.base[jamstate] == jambase && jambase + numecs == x.tblend
      ensures jamstate in x.placed && x.placed[jamstate] == Entry(JamRow(numecs, endOfBufferState), 0)
      ensures Finished(x.placed - {jamstate}, old(x.Entries()), temps, Num(), lastdfa, numecs, |temps|)
      ensures forall s :: s in x.placed && s != jamstate ==> 0 < s < |x.base| && x.base[s] < jambase
      ensures forall c :: 1 <= c <= numecs ==> 1 <= Abs(Num()[c]) <= numecs
    {
      hide Chain, HoldsIn, QueueSound, RowsSound, EobOnly, Avoids, AllRows, LiveTemps, TempsStored,
           MetaUniform, WellLinked, Consistent,
           StackOk, Apart, Bounds, Full, Compact, Finished, JamRow;
      jamstate := lastdfa + 1;
      ghost var entries0 := x.Entries();
      var nummecs := CmpTmps(lastdfa);
      ghost var num := Num();
      x.DrainStack();
      ghost var entries1 := x.placed;
      FinishedKeys(entries1, entries0, temps, num, lastdfa, numecs, numtemps);
      jambase := x.MkDefTbl(jamstate, numecs, endOfBufferState);
      numtemps := numtemps + 1;
      assert x.placed - {jamstate} == entries1;
    }

    lemma FinishedKeys(entries: map<int, Entry>, before: map<int, Entry>, temps: seq<seq<int>>, num: seq<int>,
                       lastdfa: int, numecs: nat, n: int)
      requires Finished(entries, before, temps, num, lastdfa, numecs, n)
      ensures lastdfa + 1 !in entries
    {}

    /** One round of the loop of cmptmps: the template's row, indexed by meta class, is put into tmp. */
    method FillTemplate(i: int, nummecs: int, tmp: array<int>) returns (totaltrans: int)
      requires Shape() && 1 <= i <= numtemps == |temps| && TempsStored(tnxt, temps, numecs)
               && IsRow(temps[i - 1], numecs)
      requires 0 <= nummecs <= numecs && tmp !in Repr && tmp.Length == CSIZE + 1
      requires Numbers(Num(), temps[i - 1], numecs, nummecs)
      modifies tmp
      ensures ByNumber(tmp[..], Num(), temps[i - 1], numecs)
      ensures totaltrans == |Explicit(tmp[..], nummecs, JAMSTATE)|
    {
      hide Filling, Numbers, TempsStored, IsRow, Explicit, ByNumber;
      totaltrans := 0;
      ghost var t, num := temps[i - 1], Num();
      ghost var d: set<int> := {};
      ghost var top := 0;
      NumbersSizes(num, t, numecs, nummecs);
      FillingStart(num, t, numecs, nummecs, tmp[..]);
      var j := 1;
      while j <= numecs
        invariant 1 <= j <= numecs + 1 && 0 <= top <= nummecs && totaltrans == |d|
        invariant Filling(num, t, numecs, tmp[..], d, top, j)
      {
        StoredNow(tnxt, temps, numecs, i - 1, j);
        FillingStep(num, t, numecs, nummecs, tmp[..], d, top, j);
        var trans := tnxt[numecs * i + j];
        if usemecs {
          if tecbck[j] > 0 {
            tmp[tecbck[j]] := trans;
            top := tecbck[j];
            if trans > 0 {
              totaltrans := totaltrans + 1;
              d := d + {tecbck[j]};
            }
          }
        } else {
          tmp[j] := trans;
          top := j;
          if trans > 0 {
            totaltrans := totaltrans + 1;
            d := d + {j};
          }
        }
        j := j + 1;
      }
      FilledTemplate(num, t, numecs, nummecs, tmp[..], d, top);
    }

    /** The class numbers behind the meta classes: what cre8ecs leaves in tecbck, or the classes themselves. */
    ghost function Num(): seq<int>
      reads this, tecbck
      requires Shape()
    {
      if usemecs then tecbck[..] else seq(CSIZE + 1, c => c)
    }
  }

  /** Entry e determines template t through the meta classes. */
  ghost predicate TempSound(e: Entry, t: seq<int>, num: seq<int>, numecs: nat) {
    && e.link == JAMSTATE && e.ext != map[]
    && (forall m :: m in e.ext ==> 1 <= m <= numecs && e.ext[m] > 0)
    && numecs < |num| && numecs < |t|
    && (forall c :: 1 <= c <= numecs ==> t[c] == if Abs(num[c]) in e.ext then e.ext[Abs(num[c])] else 0)
  }

  /** Besides the entries of the states there are now those of templates 1..n, behind the jam state's place. */
  ghost predicate Finished(entries: map<int, Entry>, before: map<int, Entry>, temps: seq<seq<int>>, num: seq<int>,
                           lastdfa: int, numecs: nat, n: int)
  {
    && 0 <= n <= |temps|
    && (forall s :: s in before ==> 1 <= s <= lastdfa && s in entries && entries[s] == before[s])
    && (forall s :: s in entries ==> s in before || lastdfa + 2 <= s <= lastdfa + n + 1)
    && (forall k :: 0 <= k < n ==> TempDone(entries, temps, num, lastdfa, numecs, k))
  }

  ghost predicate TempDone(entries: map<int, Entry>, temps: seq<seq<int>>, num: seq<int>, lastdfa: int, numecs: nat,
                           k: int)
    requires 0 <= k < |temps|
  {
    lastdfa + k + 2 in entries && TempSound(entries[lastdfa + k + 2], temps[k], num, numecs)
  }

  lemma FinishedStart(entries: map<int, Entry>, rows: seq<seq<int>>, temps: seq<seq<int>>, num: seq<int>, lastdfa: int,
                      numecs: nat)
    requires RowsSound(entries, rows, temps, numecs) && lastdfa == |rows|
    ensures Finished(entries, entries, temps, num, lastdfa, numecs, 0)
  {}

  lemma FinishedStep(entries: map<int, Entry>, before: map<int, Entry>, temps: seq<seq<int>>, num: seq<int>,
                     lastdfa: int, numecs: nat, nummecs: int, n: int, tmp: seq<int>)
    requires Finished(entries, before, temps, num, lastdfa, numecs, n) && 0 <= n < |temps| && 0 <= lastdfa
    requires Numbers(num, temps[n], numecs, nummecs) && IsRow(temps[n], numecs) && Live(temps[n], numecs)
             && 0 <= nummecs <= numecs && nummecs < |tmp|
    requires ByNumber(tmp, num, temps[n], numecs)
    ensures lastdfa + n + 2 !in entries
    ensures Finished(entries[lastdfa + n + 2 := Entry(Explicit(tmp, nummecs, JAMSTATE), JAMSTATE)],
                     before, temps, num, lastdfa, numecs, n + 1)
  {
    var e := Entry(Explicit(tmp, nummecs, JAMSTATE), JAMSTATE);
    var entries' := entries[lastdfa + n + 2 := e];
    assert TempSound(e, temps[n], num, numecs) by {
      forall m | m in e.ext ensures e.ext[m] > 0 { assert Used(num, numecs, m); }
      var c :| 1 <= c <= numecs && temps[n][c] > 0;
      assert Abs(num[c]) in e.ext;
    }
    forall k | 0 <= k < n + 1 ensures TempDone(entries', temps, num, lastdfa, numecs, k) {
      if k < n { assert TempDone(entries, temps, num, lastdfa, numecs, k); }
    }
  }

  lemma NumbersAll(usemecs: bool, bck: seq<int>, num: seq<int>, temps: seq<seq<int>>, numecs: nat, nummecs: int)
    requires AllRows(temps, numecs) && LiveTemps(temps, numecs) && 0 <= nummecs
    requires usemecs ==> Numbered(bck, num, numecs, nummecs) && MetaUniform(bck, temps, numecs)
    requires !usemecs ==> nummecs == numecs < |num| && forall c :: 0 <= c < |num| ==> num[c] == c
    ensures forall k :: 0 <= k < |temps| ==> Numbers(num, temps[k], numecs, nummecs) && IsRow(temps[k], numecs)
                                             && Live(temps[k], numecs)
    ensures numecs < |num| && forall c :: 1 <= c <= numecs ==> 1 <= Abs(num[c]) <= nummecs
  {
    if !usemecs {
      forall e | 1 <= e <= nummecs ensures Used(num, numecs, e) { assert num[e] == e; }
    }
  }

  /** num numbers the classes 1..nummecs with one positive occurrence each, ascending, and t depends on the number
      only. */
  ghost predicate Numbers(num: seq<int>, t: seq<int>, numecs: nat, nummecs: int) {
    && numecs < |num| && numecs < |t|
    && (forall c :: 1 <= c <= numecs ==> 1 <= Abs(num[c]) <= nummecs)
    && (forall i, j :: 1 <= i < j <= numecs && num[i] > 0 && num[j] > 0 ==> num[i] < num[j])
    && (forall e :: 1 <= e <= nummecs ==> Used(num, numecs, e))
    && (forall i, j :: 1 <= i <= numecs && 1 <= j <= numecs && Abs(num[i]) == Abs(num[j]) ==> t[i] == t[j])
  }

  /** tmp and d after the classes below j: d holds the class numbers up to top with a transition. */
  ghost predicate Filling(num: seq<int>, t: seq<int>, numecs: nat, tmp: seq<int>, d: set<int>, top: int, j: int) {
    && numecs < |num| && numecs < |t|
    && (forall m :: m in d ==> 1 <= m <= top)
    && (forall k :: 1 <= k < j && k <= numecs && num[k] > 0 ==>
          num[k] <= top && num[k] < |tmp| && tmp[num[k]] == t[k] && (num[k] in d <==> t[k] > 0))
    && (forall k :: 1 <= k <= numecs && j <= k && num[k] > 0 ==> num[k] > top)
  }

  lemma NumbersSizes(num: seq<int>, t: seq<int>, numecs: nat, nummecs: int)
    requires Numbers(num, t, numecs, nummecs)
    ensures numecs < |num| && numecs < |t|
  {}

  lemma StoredNow(tnxt: seq<int>, temps: seq<seq<int>>, numecs: int, k: int, c: int)
    requires TempsStored(tnxt, temps, numecs) && 0 <= k < |temps| && 1 <= c <= numecs
    ensures 0 <= numecs * (k + 1) + c < |tnxt| && c < |temps[k]| && tnxt[numecs * (k + 1) + c] == temps[k][c]
  {
    assert StoredAt(tnxt, temps, numecs, k, c);
  }

  lemma FillingStart(num: seq<int>, t: seq<int>, numecs: nat, nummecs: int, tmp: seq<int>)
    requires Numbers(num, t, numecs, nummecs)
    ensures Filling(num, t, numecs, tmp, {}, 0, 1)
  {}

  lemma FillingStep(num: seq<int>, t: seq<int>, numecs: nat, nummecs: int, tmp: seq<int>, d: set<int>, top: int, j: int)
    requires Numbers(num, t, numecs, nummecs) && Filling(num, t, numecs, tmp, d, top, j) && 1 <= j <= numecs
             && nummecs < |tmp|
    ensures num[j] > 0 ==> top < num[j] <= nummecs && num[j] !in d
    ensures if num[j] > 0 then Filling(num, t, numecs, tmp[num[j] := t[j]], if t[j] > 0 then d + {num[j]}
            else d, num[j], j + 1)
            else Filling(num, t, numecs, tmp, d, top, j + 1)
  {
  }

  /** tmp is t indexed by class number. */
  ghost predicate ByNumber(tmp: seq<int>, num: seq<int>, t: seq<int>, numecs: nat) {
    && numecs < |num| && numecs < |t|
    && forall c :: 1 <= c <= numecs ==> Abs(num[c]) < |tmp| && tmp[Abs(num[c])] == t[c]
  }

  lemma FilledTemplate(num: seq<int>, t: seq<int>, numecs: nat, nummecs: int, tmp: seq<int>, d: set<int>, top: int)
    requires Numbers(num, t, numecs, nummecs) && IsRow(t, numecs) && 0 <= nummecs < |tmp|
    requires top <= nummecs && Filling(num, t, numecs, tmp, d, top, numecs + 1)
    ensures ByNumber(tmp, num, t, numecs)
    ensures |Explicit(tmp, nummecs, JAMSTATE)| == |d|
  {
    forall c | 1 <= c <= numecs ensures Abs(num[c]) < |tmp| && tmp[Abs(num[c])] == t[c] {
      assert Used(num, numecs, Abs(num[c]));
    }
    forall m | 1 <= m <= nummecs ensures IsExplicit(tmp[m], JAMSTATE) <==> m in d {
      assert Used(num, numecs, m);
    }
    assert Explicit(tmp, nummecs, JAMSTATE).Keys == d;
  }
}
