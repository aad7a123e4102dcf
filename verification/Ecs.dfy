/** Equivalence classes of characters (ecs.c).
    A partition of 1..n is kept as ascending doubly linked lists threaded through two arrays:
    fwd[i] is the next member of i's class, bck[i] the previous one, 0 ends a list. */
module Ecs {


  /** Both link arrays are ascending and mutually inverse on 1..n. */
  ghost predicate WellLinked(fwd: seq<int>, bck: seq<int>, n: nat) {
    && n < |fwd| && n < |bck|
    && (forall i :: 1 <= i <= n ==> fwd[i] == 0 || (i < fwd[i] <= n && bck[fwd[i]] == i))
    && (forall i :: 1 <= i <= n ==> bck[i] == 0 || (1 <= bck[i] < i && fwd[bck[i]] == i))
  }

  /** The first member of i's list: the class representative. */
  ghost function Head(bck: seq<int>, i: nat): nat {
    if i < |bck| && 0 < bck[i] < i then Head(bck, bck[i]) else i
  }

  /** i and j are on the same list. */
  ghost predicate Same(bck: seq<int>, i: nat, j: nat) {
    Head(bck, i) == Head(bck, j)
  }

  // ----- labellings: a link structure described by a label for every symbol

  /** j is the next position after i carrying i's label, or 0 when there is none. */
  ghost predicate IsNext(lab: seq<int>, i: int, j: int)
    requires 0 <= i < |lab|
  {
    if j == 0 then forall k :: i < k < |lab| ==> lab[k] != lab[i]
    else i < j < |lab| && lab[j] == lab[i] && forall k :: i < k < j ==> lab[k] != lab[i]
  }

  /** j is the previous position before i carrying i's label, or 0 when there is none. */
  ghost predicate IsPrev(lab: seq<int>, i: int, j: int)
    requires 0 <= i < |lab|
  {
    if j == 0 then forall k :: 1 <= k < i ==> lab[k] != lab[i]
    else 1 <= j < i && lab[j] == lab[i] && forall k :: j < k < i ==> lab[k] != lab[i]
  }

  /** The links join exactly the symbols that carry the same label. */
  ghost predicate Linked(fwd: seq<int>, bck: seq<int>, lab: seq<int>) {
    && |lab| <= |fwd| && |lab| <= |bck|
    && (forall i :: 1 <= i < |lab| ==> IsNext(lab, i, fwd[i]))
    && (forall i :: 1 <= i < |lab| ==> IsPrev(lab, i, bck[i]))
  }

  ghost function Heads(bck: seq<int>, n: nat): (lab: seq<int>)
    ensures |lab| == n + 1
    ensures forall i :: 0 <= i <= n ==> lab[i] == Head(bck, i)
  {
    seq(n + 1, i requires 0 <= i <= n => Head(bck, i))
  }

  /** Between two members of one list the forward chain makes progress. */
  lemma {:induction false} HeadGap(fwd: seq<int>, bck: seq<int>, n: nat, i: nat, k: nat)
    requires WellLinked(fwd, bck, n)
    requires 1 <= i < k <= n && Same(bck, i, k)
    ensures fwd[i] != 0 && fwd[i] <= k
    ensures bck[k] != 0 && bck[k] >= i
    decreases i + k
  {
    HeadBelow(bck, i);
    if bck[k] > i {
      HeadGap(fwd, bck, n, i, bck[k]);
    } else if bck[k] < i {
      HeadGap(fwd, bck, n, bck[k], i);
    }
  }

  lemma {:induction false} HeadBelow(bck: seq<int>, i: nat)
    ensures Head(bck, i) <= i
  {
    if i < |bck| && 0 < bck[i] < i { HeadBelow(bck, bck[i]); }
  }

  /** Well-formed links are described by the labelling with representatives. */
  lemma LinkedByHeads(fwd: seq<int>, bck: seq<int>, n: nat)
    requires WellLinked(fwd, bck, n)
    ensures Linked(fwd, bck, Heads(bck, n))
  {
    var lab := Heads(bck, n);
    forall i | 1 <= i <= n
      ensures IsNext(lab, i, fwd[i]) && IsPrev(lab, i, bck[i])
    {
      forall k | i < k <= n && lab[k] == lab[i]
        ensures fwd[i] != 0 && fwd[i] <= k
      {
        HeadGap(fwd, bck, n, i, k);
      }
      forall k | 1 <= k < i && lab[k] == lab[i]
        ensures bck[i] != 0 && bck[i] >= k
      {
        HeadGap(fwd, bck, n, k, i);
      }
    }
  }

  /** Conversely a labelling determines well-formed links, and its label classes are the lists. */
  lemma HeadsOfLabels(fwd: seq<int>, bck: seq<int>, lab: seq<int>)
    requires |lab| > 0 && Linked(fwd, bck, lab)
    ensures WellLinked(fwd, bck, |lab| - 1)
    ensures forall i, j :: 1 <= i < |lab| && 1 <= j < |lab| ==> (Same(bck, i, j) <==> lab[i] == lab[j])
  {
    forall i | 1 <= i < |lab|
      ensures fwd[i] == 0 || (i < fwd[i] < |lab| && bck[fwd[i]] == i)
      ensures bck[i] == 0 || (1 <= bck[i] < i && fwd[bck[i]] == i)
    {
      assert IsNext(lab, i, fwd[i]) && IsPrev(lab, i, bck[i]);
      if fwd[i] != 0 { assert IsPrev(lab, fwd[i], bck[fwd[i]]); }
      if bck[i] != 0 { assert IsNext(lab, bck[i], fwd[bck[i]]); }
    }
    forall i, j | 1 <= i < |lab| && 1 <= j < |lab|
      ensures Same(bck, i, j) <==> lab[i] == lab[j]
    {
      HeadIsFirst(fwd, bck, lab, i);
      HeadIsFirst(fwd, bck, lab, j);
    }
  }

  lemma {:induction false} HeadIsFirst(fwd: seq<int>, bck: seq<int>, lab: seq<int>, i: nat)
    requires Linked(fwd, bck, lab) && 1 <= i < |lab|
    ensures var h := Head(bck, i); 1 <= h <= i && lab[h] == lab[i] && forall k :: 1 <= k < h ==> lab[k] != lab[i]
  {
    assert IsPrev(lab, i, bck[i]);
    if bck[i] != 0 { HeadIsFirst(fwd, bck, lab, bck[i]); }
  }

  /** All of 1..n on one list, as inittbl and the option processing in main.c set it up. */
  method InitLinks(fwd: array<int>, bck: array<int>, n: nat)
    requires fwd != bck && 1 <= n < fwd.Length && n < bck.Length
    modifies fwd, bck
    ensures WellLinked(fwd[..], bck[..], n)
    ensures forall i :: 1 <= i <= n ==> Head(bck[..], i) == 1
  {
    bck[1] := 0;
    var i := 2;
    while i <= n
      invariant 2 <= i <= n + 1 && bck[1] == 0
      invariant forall k :: 2 <= k < i ==> bck[k] == k - 1
      invariant forall k :: 1 <= k < i - 1 ==> fwd[k] == k + 1
    {
      bck[i] := i - 1;
      fwd[i - 1] := i;
      i := i + 1;
    }
    fwd[n] := 0;
    forall k | 1 <= k <= n ensures Head(bck[..], k) == 1 { OneList(bck[..], n, k); }
  }

  lemma {:induction false} OneList(bck: seq<int>, n: nat, k: nat)
    requires n < |bck| && 1 <= k <= n && forall i :: 1 <= i <= n ==> bck[i] == i - 1
    ensures Head(bck, k) == 1
  {
    if k > 1 { OneList(bck, n, k - 1); }
  }

  // ----- refinement by a character class

  /** NUL (0) in a class stands for the symbol nulMapping, when one is given. */
  function MapNul(ch: int, nulMapping: int): int {
    if nulMapping != 0 && ch == 0 then nulMapping else ch
  }

  function Mapped(ccls: seq<int>, nulMapping: int): (c: seq<int>)
    ensures |c| == |ccls|
    ensures forall q :: 0 <= q < |c| ==> c[q] == MapNul(ccls[q], nulMapping)
  {
    seq(|ccls|, q requires 0 <= q < |ccls| => MapNul(ccls[q], nulMapping))
  }

  /** The class is strictly ascending (NUL where its image belongs) and within 1..n. */
  ghost predicate ClassOk(c: seq<int>, n: nat) {
    && (forall q :: 0 <= q < |c| ==> 1 <= c[q] <= n)
    && (forall p, q :: 0 <= p < q < |c| ==> c[p] < c[q])
  }

  /** lab, with the members of c set apart inside the label classes in t. */
  ghost function Split(lab: seq<int>, c: seq<int>, t: set<int>): (r: seq<int>)
    ensures |r| == |lab|
    ensures forall i :: 0 <= i < |lab| ==> r[i] == 2 * lab[i] + (if i in c && lab[i] in t then 1 else 0)
  {
    seq(|lab|, i requires 0 <= i < |lab| => 2 * lab[i] + (if i in c && lab[i] in t then 1 else 0))
  }

  /** After is the partition Before, each class divided into its part inside c and its part outside. */
  ghost predicate RefinedBy(before: seq<int>, after: seq<int>, n: nat, c: seq<int>) {
    forall i, j :: 1 <= i <= n && 1 <= j <= n ==>
      (Same(after, i, j) <==> Same(before, i, j) && (i in c <==> j in c))
  }

  // ----- dividing one list

  /** now is was with the class labelled outl divided: its members in the character class carry inl. */
  ghost predicate Divides(was: seq<int>, now: seq<int>, outl: int, inl: int) {
    && |was| == |now| && outl != inl
    && (forall k :: 0 <= k < |was| ==> if was[k] == outl then now[k] == outl || now[k] == inl
                                       else now[k] == was[k] && now[k] != inl)
  }

  /** The list of m is divided up to position lim: newec and oldec end the two chains built so far. */
  ghost predicate Halfway(fwd: seq<int>, bck: seq<int>, was: seq<int>, now: seq<int>, outl: int, inl: int,
                          m: int, lim: int, newec: int, oldec: int)
  {
    && |was| == |now| <= |fwd| && |was| <= |bck|
    && 1 <= m <= newec < lim <= |was|
    && now[newec] == inl && (forall k :: newec < k < lim ==> now[k] != inl)
    && 0 <= oldec < lim && (oldec != 0 ==> now[oldec] == outl)
       && (forall k :: 1 <= k && oldec < k < lim ==> now[k] != outl)
    && (forall k :: 1 <= k < |was| && k != newec && k != oldec && (was[k] != outl || k < lim)
          ==> IsNext(now, k, fwd[k]))
    && (forall k :: 1 <= k < |was| && k != m && (was[k] != outl || k < lim) ==> IsPrev(now, k, bck[k]))
    && (forall k :: lim <= k < |was| && was[k] == outl ==> IsNext(was, k, fwd[k]))
  }

  lemma HalfwayStart(fwd: seq<int>, bck: seq<int>, was: seq<int>, now: seq<int>, outl: int, inl: int, m: int,
                     c: seq<int>, cclp: nat)
    requires Linked(fwd, bck, was) && Divides(was, now, outl, inl)
    requires |was| > 0 && ClassOk(c, |was| - 1) && cclp < |c| && m == c[cclp]
    requires was[m] == outl && forall k :: 1 <= k < |was| && was[k] == outl ==> (now[k] == inl <==> k in c)
    requires forall q :: 0 <= q < cclp ==> now[c[q]] != inl
    ensures forall q :: 0 <= q <= cclp ==> c[q] <= m
    ensures forall k :: 1 <= k < m ==> now[k] != inl
    ensures 0 <= bck[m] < m && 0 <= fwd[m] < |was| && (fwd[m] != 0 ==> m < fwd[m] && was[fwd[m]] == outl)
    ensures var lim := if fwd[m] == 0 then |was| else fwd[m];
            && Halfway(fwd, bck, was, now, outl, inl, m, lim, m, bck[m])
            && (forall q :: cclp < q < |c| && c[q] < lim ==> was[c[q]] != outl)
  {
    assert forall k :: 1 <= k < m && k in c ==> k in c[..cclp];
    assert IsNext(was, m, fwd[m]) && IsPrev(was, m, bck[m]);
    HalfwayLinks(fwd, bck, was, now, outl, inl, m);
  }

  lemma HalfwayLinks(fwd: seq<int>, bck: seq<int>, was: seq<int>, now: seq<int>, outl: int, inl: int, m: int)
    requires Linked(fwd, bck, was) && Divides(was, now, outl, inl)
    requires 1 <= m < |was| && was[m] == outl && now[m] == inl
    requires forall k :: 1 <= k < m ==> now[k] != inl
    ensures Halfway(fwd, bck, was, now, outl, inl, m, if fwd[m] == 0 then |was| else fwd[m], m, bck[m])
  {
    var lim := if fwd[m] == 0 then |was| else fwd[m];
    assert IsNext(was, m, fwd[m]) && IsPrev(was, m, bck[m]);
    forall k | 1 <= k < |was| && k != m && (was[k] != outl || k < lim)
      ensures k != bck[m] ==> IsNext(now, k, fwd[k])
      ensures IsPrev(now, k, bck[k])
    {
      assert IsNext(was, k, fwd[k]) && IsPrev(was, k, bck[k]);
    }
  }

  /** Position i = lim joins the chain ending in tail, which is newec (i in the class) or oldec (i not in it). */
  lemma HalfwayStep(fwd: seq<int>, bck: seq<int>, was: seq<int>, now: seq<int>, outl: int, inl: int,
                    m: int, i: int, newec: int, oldec: int, fwd': seq<int>, bck': seq<int>)
    requires Divides(was, now, outl, inl)
    requires Halfway(fwd, bck, was, now, outl, inl, m, i, newec, oldec) && i < |was| && was[i] == outl
    requires var tail := if now[i] == inl then newec else oldec;
             0 <= tail < i && fwd' == (if tail == 0 then fwd else fwd[tail := i]) && bck' == bck[i := tail]
    ensures var lim := if fwd[i] == 0 then |was| else fwd[i];
            fwd'[i] == fwd[i] && i < lim <= |was| && 0 <= fwd[i] < |was| && (fwd[i] != 0 ==> was[fwd[i]] == outl)
            && (forall k :: i < k < lim ==> was[k] != outl)
            && (if now[i] == inl then Halfway(fwd', bck', was, now, outl, inl, m, lim, i, oldec)
                else Halfway(fwd', bck', was, now, outl, inl, m, lim, newec, i))
  {
    hide IsNext, IsPrev, Divides;
    NextRange(was, i, fwd[i]);
    var lim := if fwd[i] == 0 then |was| else fwd[i];
    var tail := if now[i] == inl then newec else oldec;
    Unsplit(was, now, outl, inl, i, lim);
    JoinChain(now, i, tail, if now[i] == inl then inl else outl);
    assert IsNext(was, i, fwd[i]);
  }

  lemma NextRange(was: seq<int>, i: int, j: int)
    requires 1 <= i < |was| && IsNext(was, i, j)
    ensures var lim := if j == 0 then |was| else j;
            i < lim <= |was| && 0 <= j < |was| && (j != 0 ==> was[j] == was[i])
                && forall k :: i < k < lim ==> was[k] != was[i]
  {}

  /** Where the old label does not occur, neither do the two new ones. */
  lemma Unsplit(was: seq<int>, now: seq<int>, outl: int, inl: int, i: int, lim: int)
    requires Divides(was, now, outl, inl) && 0 <= i < lim <= |was| && was[i] == outl
             && forall k :: i < k < lim ==> was[k] != outl
    ensures |now| == |was| && (now[i] == inl || now[i] == outl) && outl != inl
    ensures forall k :: i < k < lim ==> now[k] != inl && now[k] != outl
  {}

  lemma JoinChain(now: seq<int>, i: int, tail: int, l: int)
    requires 1 <= i < |now| && 0 <= tail < i && now[i] == l && (tail != 0 ==> now[tail] == l)
    requires forall k :: 1 <= k && tail < k < i ==> now[k] != l
    ensures IsPrev(now, i, tail) && (tail != 0 ==> IsNext(now, tail, i))
  {}

  lemma HalfwayDone(fwd: seq<int>, bck: seq<int>, was: seq<int>, now: seq<int>, outl: int, inl: int,
                    m: int, newec: int, oldec: int, fwd': seq<int>, bck': seq<int>)
    requires Divides(was, now, outl, inl)
    requires Halfway(fwd, bck, was, now, outl, inl, m, |was|, newec, oldec)
    requires forall k :: 1 <= k < m ==> now[k] != inl
    requires |fwd'| == |fwd| && |bck'| == |bck| && bck' == bck[m := 0]
    requires fwd' == (if oldec == 0 then fwd else fwd[oldec := 0])[newec := 0]
    requires now[m] == inl
    ensures Linked(fwd', bck', now)
  {
    forall k | 1 <= k < |was|
      ensures IsNext(now, k, fwd'[k]) && IsPrev(now, k, bck'[k])
    {
    }
  }

  /** i is hung behind tail, the end of the chain it belongs to; without a tail it starts the chain. */
  method Append(fwd: array<int>, bck: array<int>, tail: int, i: int)
    requires fwd != bck && 0 <= tail < fwd.Length && 0 <= i < bck.Length
    modifies fwd, bck
    ensures fwd[..] == if tail == 0 then old(fwd[..]) else old(fwd[..])[tail := i]
    ensures bck[..] == old(bck[..])[i := tail]
  {
    bck[i] := tail;
    if tail != 0 { fwd[tail] := i; }
  }

  /** The flags after the members below lim of the list labelled outl have been found. */
  ghost predicate Flagged(flags: seq<int>, before: seq<int>, c: seq<int>, cclp: nat, was: seq<int>, outl: int, lim: int)
  {
    && |flags| == |before|
    && forall q :: 0 <= q < |flags| ==>
         flags[q] == if cclp < q < |c| && 0 <= c[q] < |was| && was[c[q]] == outl && c[q] < lim then 1 else before[q]
  }

  lemma FlaggedStart(flags: seq<int>, c: seq<int>, cclp: nat, was: seq<int>, outl: int, lim: int)
    requires forall q :: cclp < q < |c| && 0 <= c[q] < |was| && c[q] < lim ==> was[c[q]] != outl
    ensures Flagged(flags, flags, c, cclp, was, outl, lim)
  {}

  lemma MemberRange(c: seq<int>, n: nat, q: int)
    requires ClassOk(c, n) && 0 <= q < |c|
    ensures 1 <= c[q] <= n
  {}

  lemma LinkedSizes(fwd: seq<int>, bck: seq<int>, lab: seq<int>)
    requires Linked(fwd, bck, lab)
    ensures |lab| <= |fwd| && |lab| <= |bck|
  {}

  lemma FlaggedStep(flags: seq<int>, before: seq<int>, c: seq<int>, cclp: nat, was: seq<int>, outl: int,
                    i: int, lim: int, found: bool, j: nat, flags': seq<int>)
    requires |was| > 0 && ClassOk(c, |was| - 1) && |c| <= |before|
    requires Flagged(flags, before, c, cclp, was, outl, i)
    requires 0 <= i < |was| && i < lim && was[i] == outl && forall k :: i < k < lim && k < |was| ==> was[k] != outl
    requires found <==> i in c
    requires found ==> cclp < j < |c| && c[j] == i
    requires flags' == if found && j < |flags| then flags[j := 1] else flags
    ensures Flagged(flags', before, c, cclp, was, outl, lim)
  {
  }

  /** The inner loop of mkeccl: the list of cclm = c[cclp] is divided into members and non-members of c,
      and the positions of the members found are flagged. */
  method SplitList(ccls: seq<int>, cclp: nat, fwd: array<int>, bck: array<int>, llsiz: nat, nulMapping: int,
                   cclflags: array<int>, ghost c: seq<int>, ghost was: seq<int>, ghost now: seq<int>,
                   ghost outl: int, ghost inl: int)
    requires fwd != bck && fwd != cclflags && bck != cclflags
    requires |was| == llsiz + 1 && Linked(fwd[..], bck[..], was) && Divides(was, now, outl, inl)
    requires cclp < |ccls| <= cclflags.Length
    requires c == Mapped(ccls, nulMapping) && ClassOk(c, llsiz)
    requires was[c[cclp]] == outl
    requires forall k :: 1 <= k <= llsiz && was[k] == outl ==> (now[k] == inl <==> k in c)
    requires forall q :: 0 <= q < cclp ==> now[c[q]] != inl
    requires forall q :: cclp < q < |c| && was[c[q]] == outl ==> cclflags[q] == 0
    modifies fwd, bck, cclflags
    ensures Linked(fwd[..], bck[..], now)
    ensures Flagged(cclflags[..], old(cclflags[..]), c, cclp, was, outl, llsiz + 1)
    ensures SameOutside(fwd[..], old(fwd[..]), llsiz) && SameOutside(bck[..], old(bck[..]), llsiz)
  {
    hide Linked, Divides, Halfway, IsNext, Flagged, SameOutside, ClassOk;
    ghost var fwds, bcks, flags := fwd[..], bck[..], cclflags[..];
    var cclm := MapNul(ccls[cclp], nulMapping);
    MemberRange(c, llsiz, cclp);
    LinkedSizes(fwds, bcks, was);
    HalfwayStart(fwds, bcks, was, now, outl, inl, cclm, c, cclp);
    var oldec := bck[cclm];
    var newec := cclm;
    var j := cclp + 1;
    var i := fwd[cclm];
    ghost var lim := if i == 0 then llsiz + 1 else i;
    FlaggedStart(flags, c, cclp, was, outl, lim);
    SameOutsideRefl(fwds, llsiz);
    SameOutsideRefl(bcks, llsiz);
    while i != 0 && i <= llsiz
      invariant 0 <= i <= llsiz && lim == (if i == 0 then llsiz + 1 else i) && (i != 0 ==> was[i] == outl)
      invariant Halfway(fwd[..], bck[..], was, now, outl, inl, cclm, lim, newec, oldec)
      invariant cclm <= newec < lim && 0 <= oldec < lim && cclm < lim
      invariant bck[cclm] == bcks[cclm] && bck[cclm] <= oldec
      invariant cclp < j <= |c| && forall q :: 0 <= q < j ==> c[q] < lim
      invariant Flagged(cclflags[..], flags, c, cclp, was, outl, lim)
      invariant SameOutside(fwd[..], fwds, llsiz) && SameOutside(bck[..], bcks, llsiz)
      decreases llsiz + 1 - lim
    {
      ghost var fwd0, bck0, flags0, new0, old0 := fwd[..], bck[..], cclflags[..], newec, oldec;
      var found, stop := FindMember(ccls, cclp, j, nulMapping, cclflags, i, c, was, outl, flags);
      j := stop;
      if found {
        Append(fwd, bck, newec, i);
        newec := i;
        cclflags[j] := 1;
      } else {
        Append(fwd, bck, oldec, i);
        oldec := i;
      }
      HalfwayStep(fwd0, bck0, was, now, outl, inl, cclm, i, new0, old0, fwd[..], bck[..]);
      SameOutsideStep(fwd0, fwds, llsiz, if found then new0 else old0, i);
      SameOutsideStep(bck0, bcks, llsiz, i, if found then new0 else old0);
      lim := if fwd[i] == 0 then llsiz + 1 else fwd[i];
      FlaggedStep(flags0, flags, c, cclp, was, outl, i, lim, found, j, cclflags[..]);
      i := fwd[i];
    }
    ghost var fwd1, bck1 := fwd[..], bck[..];
    SameOutsideStep(fwd1, fwds, llsiz, oldec, 0);
    SameOutsideStep(if oldec == 0 then fwd1 else fwd1[oldec := 0], fwds, llsiz, newec, 0);
    SameOutsideStep(bck1, bcks, llsiz, cclm, 0);
    if bck[cclm] != 0 || oldec != bck[cclm] {
      bck[cclm] := 0;
      fwd[oldec] := 0;
    }
    fwd[newec] := 0;
    HalfwayDone(fwd1, bck1, was, now, outl, inl, cclm, newec, oldec, fwd[..], bck[..]);
  }

  /** a and b agree at index 0 and beyond n. */
  ghost predicate SameOutside(a: seq<int>, b: seq<int>, n: nat) {
    |a| == |b| && forall k :: 0 <= k < |a| && (k == 0 || k > n) ==> a[k] == b[k]
  }

  lemma SameOutsideRefl(a: seq<int>, n: nat)
    ensures SameOutside(a, a, n)
  {}

  lemma SameOutsideTrans(a: seq<int>, b: seq<int>, c: seq<int>, n: nat)
    requires SameOutside(a, b, n) && SameOutside(b, c, n)
    ensures SameOutside(a, c, n)
  {}

  lemma SameOutsideStep(a: seq<int>, b: seq<int>, n: nat, i: int, v: int)
    requires SameOutside(a, b, n) && 0 <= i <= n && n < |a|
    ensures SameOutside(if i == 0 then a else a[i := v], b, n)
  {}

  /** The scan of mkeccl for symbol i among the class members from position j on: the members passed over
      are smaller than i, and the scan stops at i itself when i is a member. */
  method FindMember(ccls: seq<int>, ghost cclp: nat, start: nat, nulMapping: int, cclflags: array<int>, i: int,
                    ghost c: seq<int>, ghost was: seq<int>, ghost outl: int, ghost flags: seq<int>)
    returns (found: bool, j: nat)
    requires cclp < start <= |ccls| <= cclflags.Length
    requires |was| > 0 && c == Mapped(ccls, nulMapping) && ClassOk(c, |was| - 1)
    requires |c| <= |flags| && Flagged(cclflags[..], flags, c, cclp, was, outl, i)
    requires 0 <= i < |was| && was[i] == outl
    requires forall q :: 0 <= q < start ==> c[q] < i
    requires forall q :: cclp < q < |c| && was[c[q]] == outl ==> flags[q] == 0
    ensures found <==> i in c
    ensures start <= j <= |ccls| && (found ==> j < |ccls| && c[j] == i)
    ensures forall q :: 0 <= q < j ==> c[q] < i
  {
    j := start;
    while j < |ccls|
      invariant start <= j <= |c|
      invariant forall q :: 0 <= q < j ==> c[q] < i
    {
      var cclChar := MapNul(ccls[j], nulMapping);
      if cclChar > i { break; }
      if cclChar == i && cclflags[j] == 0 {
        assert c[j] == i;
        return true, j;
      }
      assert c[j] == cclChar && cclflags[..][j] == cclflags[j];
      j := j + 1;
    }
    found := false;
  }

  /** Position of the outer loop of mkeccl: the classes in t are divided, the flags mark the members of c
      from cclp on whose class is done. */
  ghost predicate Underway(flags: seq<int>, lab: seq<int>, c: seq<int>, t: set<int>, cclp: nat)
  {
    && cclp <= |c| <= |flags|
    && (forall q :: 0 <= q < cclp ==> 0 <= c[q] < |lab| && lab[c[q]] in t)
    && (forall q :: 0 <= q < |flags| ==>
          flags[q] == if cclp <= q < |c| && 0 <= c[q] < |lab| && lab[c[q]] in t then 1 else 0)
  }

  lemma UnderwayStart(flags: seq<int>, lab: seq<int>, c: seq<int>, fwd: seq<int>, bck: seq<int>, n: nat)
    requires |c| <= |flags| && forall q :: 0 <= q < |flags| ==> flags[q] == 0
    ensures Underway(flags, lab, c, {}, 0) && SameOutside(fwd, fwd, n) && SameOutside(bck, bck, n)
  {}

  lemma UnderwayStep(flags: seq<int>, lab: seq<int>, c: seq<int>, t: set<int>, cclp: nat, flags': seq<int>)
    requires |lab| > 0 && ClassOk(c, |lab| - 1) && |c| <= |flags|
    requires Underway(flags, lab, c, t, cclp) && cclp < |c| && lab[c[cclp]] !in t
    requires var l := lab[c[cclp]]; Flagged(flags', flags, c, cclp, Split(lab, c, t), 2 * l, |lab|)
    ensures Underway(flags', lab, c, t + {lab[c[cclp]]}, cclp + 1)
  {
  }

  lemma UnderwayReady(flags: seq<int>, lab: seq<int>, c: seq<int>, t: set<int>, cclp: nat)
    requires |lab| > 0 && ClassOk(c, |lab| - 1) && Underway(flags, lab, c, t, cclp)
    requires cclp < |c| && lab[c[cclp]] !in t
    ensures var l := lab[c[cclp]]; var was, now := Split(lab, c, t), Split(lab, c, t + {l});
            && was[c[cclp]] == 2 * l
            && (forall q :: 0 <= q < cclp ==> now[c[q]] != 2 * l + 1)
            && (forall q :: cclp < q < |c| && was[c[q]] == 2 * l ==> flags[q] == 0)
  {
  }

  lemma UnderwaySkip(flags: seq<int>, lab: seq<int>, c: seq<int>, t: set<int>, cclp: nat, flags': seq<int>)
    requires Underway(flags, lab, c, t, cclp) && cclp < |c| && flags[cclp] != 0 && flags' == flags[cclp := 0]
    ensures Underway(flags', lab, c, t, cclp + 1)
  {
  }

  lemma UnderwayUnflagged(flags: seq<int>, lab: seq<int>, c: seq<int>, t: set<int>, cclp: nat)
    requires |lab| > 0 && ClassOk(c, |lab| - 1) && Underway(flags, lab, c, t, cclp)
    ensures cclp < |c| && flags[cclp] == 0 ==> lab[c[cclp]] !in t
    ensures cclp == |c| ==> (forall q :: 0 <= q < |flags| ==> flags[q] == 0)
                            && forall k :: 1 <= k < |lab| && k in c ==> lab[k] in t
  {
  }

  lemma DividesSplit(lab: seq<int>, c: seq<int>, t: set<int>, l: int)
    requires l !in t
    ensures Divides(Split(lab, c, t), Split(lab, c, t + {l}), 2 * l, 2 * l + 1)
    ensures forall k :: 0 <= k < |lab| && lab[k] == l ==> Split(lab, c, t)[k] == 2 * l
    ensures forall k :: 0 <= k < |lab| && Split(lab, c, t)[k] == 2 * l ==> lab[k] == l
    ensures forall k :: 0 <= k < |lab| && lab[k] == l ==> (Split(lab, c, t + {l})[k] == 2 * l + 1 <==> k in c)
    ensures forall k :: 0 <= k < |lab| && Split(lab, c, t + {l})[k] == 2 * l + 1 ==> lab[k] == l
  {
  }

  /** The loop of mkeccl that passes over members already processed and resets their flags. Behind the last member of a
      class with as many members as there are flags it looks at what lies behind them; whatever this is, it stops. */
  method SkipFlagged(cclflags: array<int>, start: nat, lenccl: nat, ghost lab: seq<int>, ghost c: seq<int>,
                     ghost t: set<int>)
    returns (cclp: nat)
    requires |lab| > 0 && ClassOk(c, |lab| - 1) && lenccl == |c| <= cclflags.Length && start <= lenccl
    requires Underway(cclflags[..], lab, c, t, start)
    modifies cclflags
    ensures start <= cclp <= lenccl && Underway(cclflags[..], lab, c, t, cclp)
    ensures cclp < lenccl ==> lab[c[cclp]] !in t
  {
    cclp := start;
    var behind: int := *;
    while (if cclp < cclflags.Length then cclflags[cclp] else behind) != 0 && cclp < lenccl
      invariant start <= cclp <= lenccl
      invariant Underway(cclflags[..], lab, c, t, cclp)
      decreases lenccl - cclp
    {
      ghost var flags := cclflags[..];
      cclflags[cclp] := 0;
      UnderwaySkip(flags, lab, c, t, cclp, cclflags[..]);
      cclp := cclp + 1;
    }
    UnderwayUnflagged(cclflags[..], lab, c, t, cclp);
  }

  /** mkeccl: every class of the partition is divided into its part inside ccls and its part outside. */
  method MkEccl(ccls: seq<int>, fwd: array<int>, bck: array<int>, llsiz: nat, nulMapping: int, cclflags: array<int>)
    requires fwd != bck && fwd != cclflags && bck != cclflags
    requires WellLinked(fwd[..], bck[..], llsiz)
    requires |ccls| <= cclflags.Length
    requires ClassOk(Mapped(ccls, nulMapping), llsiz)
    requires forall q :: 0 <= q < cclflags.Length ==> cclflags[q] == 0
    modifies fwd, bck, cclflags
    ensures WellLinked(fwd[..], bck[..], llsiz)
    ensures RefinedBy(old(bck[..]), bck[..], llsiz, Mapped(ccls, nulMapping))
    ensures forall q :: 0 <= q < cclflags.Length ==> cclflags[q] == 0
    ensures SameOutside(fwd[..], old(fwd[..]), llsiz) && SameOutside(bck[..], old(bck[..]), llsiz)
  {
    hide Linked, WellLinked, Divides, Flagged, RefinedBy, Underway, SameOutside;
    ghost var c, lab := Mapped(ccls, nulMapping), Heads(bck[..], llsiz);
    ghost var t: set<int> := {};
    ghost var fwds, bcks := fwd[..], bck[..];
    LinkedByHeads(fwds, bcks, llsiz);
    LinkedRelabelled(fwds, bcks, lab, Split(lab, c, t));
    UnderwayStart(cclflags[..], lab, c, fwds, bcks, llsiz);
    var cclp := 0;
    UnderwayUnflagged(cclflags[..], lab, c, t, 0);
    while cclp < |ccls|
      invariant 0 <= cclp <= |ccls|
      invariant Linked(fwd[..], bck[..], Split(lab, c, t))
      invariant Underway(cclflags[..], lab, c, t, cclp)
      invariant cclp < |c| ==> lab[c[cclp]] !in t
      invariant SameOutside(fwd[..], fwds, llsiz) && SameOutside(bck[..], bcks, llsiz)
    {
      ghost var l, flags := lab[c[cclp]], cclflags[..];
      DividesSplit(lab, c, t, l);
      UnderwayReady(flags, lab, c, t, cclp);
      ghost var fwd0, bck0 := fwd[..], bck[..];
      SplitList(ccls, cclp, fwd, bck, llsiz, nulMapping, cclflags, c,
                Split(lab, c, t), Split(lab, c, t + {l}), 2 * l, 2 * l + 1);
      SameOutsideTrans(fwd[..], fwd0, fwds, llsiz);
      SameOutsideTrans(bck[..], bck0, bcks, llsiz);
      UnderwayStep(flags, lab, c, t, cclp, cclflags[..]);
      t := t + {l};
      cclp := SkipFlagged(cclflags, cclp + 1, |ccls|, lab, c, t);
    }
    UnderwayUnflagged(cclflags[..], lab, c, t, cclp);
    RefinedByLabels(fwd[..], bck[..], fwds, bcks, llsiz, c, t);
    assert forall q :: 0 <= q < cclflags.Length ==> cclflags[q] == cclflags[..][q];
  }

  lemma RefinedByLabels(fwd: seq<int>, bck: seq<int>, fwds: seq<int>, bcks: seq<int>, n: nat, c: seq<int>, t: set<int>)
    requires Linked(fwd, bck, Split(Heads(bcks, n), c, t))
    requires forall k :: 1 <= k <= n && k in c ==> Heads(bcks, n)[k] in t
    ensures WellLinked(fwd, bck, n) && RefinedBy(bcks, bck, n, c)
  {
    HeadsOfLabels(fwd, bck, Split(Heads(bcks, n), c, t));
  }

  /** Links do not depend on the label values, only on which labels are equal. */
  lemma LinkedRelabelled(fwd: seq<int>, bck: seq<int>, lab: seq<int>, lab': seq<int>)
    requires Linked(fwd, bck, lab) && |lab'| == |lab|
    requires forall i, j :: 1 <= i < |lab| && 1 <= j < |lab| ==> (lab[i] == lab[j] <==> lab'[i] == lab'[j])
    ensures Linked(fwd, bck, lab')
  {
    forall i | 1 <= i < |lab|
      ensures IsNext(lab', i, fwd[i]) && IsPrev(lab', i, bck[i])
    {
      assert IsNext(lab, i, fwd[i]) && IsPrev(lab, i, bck[i]);
    }
  }

  /** mkechar: the character is unlinked and becomes a class of its own. */
  method MkEchar(tch: int, fwd: array<int>, bck: array<int>, ghost n: nat)
    requires fwd != bck && WellLinked(fwd[..], bck[..], n) && 1 <= tch <= n
    modifies fwd, bck
    ensures WellLinked(fwd[..], bck[..], n)
    ensures RefinedBy(old(bck[..]), bck[..], n, [tch])
    ensures old(fwd[tch]) == 0 && old(bck[tch]) == 0 ==> bck[..] == old(bck[..])
    ensures SameOutside(fwd[..], old(fwd[..]), n) && SameOutside(bck[..], old(bck[..]), n)
  {
    ghost var fwds, bcks := fwd[..], bck[..];
    LinksInRange(fwds, bcks, n, tch);
    hide WellLinked;
    if fwd[tch] != 0 { bck[fwd[tch]] := bck[tch]; }
    if bck[tch] != 0 { fwd[bck[tch]] := fwd[tch]; }
    fwd[tch] := 0;
    bck[tch] := 0;
    assert fwd[..] == (if bcks[tch] == 0 then fwds else fwds[bcks[tch] := fwds[tch]])[tch := 0];
    assert bck[..] == (if fwds[tch] == 0 then bcks else bcks[fwds[tch] := bcks[tch]])[tch := 0];
    Unlinked(fwds, bcks, n, tch, fwd[..], bck[..]);
  }

  lemma LinksInRange(fwd: seq<int>, bck: seq<int>, n: nat, t: int)
    requires WellLinked(fwd, bck, n) && 1 <= t <= n
    ensures n < |fwd| && n < |bck| && 0 <= fwd[t] <= n && 0 <= bck[t] < t && (fwd[t] != 0 ==> fwd[t] > t)
  {
  }

  lemma UnlinkedLinks(fwd: seq<int>, bck: seq<int>, was: seq<int>, now: seq<int>, outl: int, inl: int, t: int,
                      fwd': seq<int>, bck': seq<int>)
    requires Linked(fwd, bck, was) && Divides(was, now, outl, inl) && 1 <= t < |was|
    requires was[t] == outl && forall i :: 0 <= i < |was| ==> (now[i] == inl <==> i == t)
    requires 0 <= bck[t] < t && 0 <= fwd[t] < |was|
    requires fwd' == (if bck[t] == 0 then fwd else fwd[bck[t] := fwd[t]])[t := 0]
    requires bck' == (if fwd[t] == 0 then bck else bck[fwd[t] := bck[t]])[t := 0]
    ensures Linked(fwd', bck', now)
  {
    hide IsNext, IsPrev;
    forall k | 1 <= k < |was| ensures IsNext(now, k, fwd'[k]) && IsPrev(now, k, bck'[k]) {
      UnlinkedAt(fwd, bck, was, now, outl, inl, t, k);
    }
  }

  /** The lists after t has been taken out of its own. */
  lemma Unlinked(fwd: seq<int>, bck: seq<int>, n: nat, t: int, fwd': seq<int>, bck': seq<int>)
    requires WellLinked(fwd, bck, n) && 1 <= t <= n
    requires fwd' == (if bck[t] == 0 then fwd else fwd[bck[t] := fwd[t]])[t := 0]
    requires bck' == (if fwd[t] == 0 then bck else bck[fwd[t] := bck[t]])[t := 0]
    ensures WellLinked(fwd', bck', n) && RefinedBy(bck, bck', n, [t])
    ensures SameOutside(fwd', fwd, n) && SameOutside(bck', bck, n)
  {
    LinksInRange(fwd, bck, n, t);
    hide WellLinked, Linked, RefinedBy, Divides;
    var lab := Heads(bck, n);
    var was, now := Split(lab, [t], {}), Split(lab, [t], {lab[t]});
    LinkedByHeads(fwd, bck, n);
    LinkedRelabelled(fwd, bck, lab, was);
    DividesSplit(lab, [t], {}, lab[t]);
    assert {} + {lab[t]} == {lab[t]};
    UnlinkedLinks(fwd, bck, was, now, 2 * lab[t], 2 * lab[t] + 1, t, fwd', bck');
    RefinedByLabels(fwd', bck', fwd, bck, n, [t], {lab[t]});
  }

  lemma UnlinkedAt(fwd: seq<int>, bck: seq<int>, was: seq<int>, now: seq<int>, outl: int, inl: int, t: int, k: int)
    requires Linked(fwd, bck, was) && Divides(was, now, outl, inl)
    requires 1 <= t < |was| && 1 <= k < |was|
    requires was[t] == outl && forall i :: 0 <= i < |was| ==> (now[i] == inl <==> i == t)
    ensures IsNext(now, k, if k == t then 0 else if k == bck[t] then fwd[t] else fwd[k])
    ensures IsPrev(now, k, if k == t then 0 else if k == fwd[t] then bck[t] else bck[k])
  {
    assert IsNext(was, k, fwd[k]) && IsPrev(was, k, bck[k]);
    assert IsNext(was, t, fwd[t]) && IsPrev(was, t, bck[t]);
  }

  // ----- numbering the classes

  function Abs(x: int): (r: int)
    ensures r >= 0 && (r == x || r == -x)
  {
    if x < 0 then -x else x
  }

  /** Some representative carries number e. */
  ghost predicate Used(num: seq<int>, n: nat, e: int)
    requires n < |num|
  {
    exists i :: 1 <= i <= n && num[i] == e
  }

  /** num holds a class number for every symbol: numbers 1..numcl, one per list, positive exactly on
      representatives, and ascending in the representatives. */
  ghost predicate Numbered(before: seq<int>, num: seq<int>, n: nat, numcl: nat) {
    && n < |before| && n < |num|
    && (forall i :: 1 <= i <= n ==> 1 <= Abs(num[i]) <= numcl)
    && (forall i, j :: 1 <= i <= n && 1 <= j <= n ==> (Abs(num[i]) == Abs(num[j]) <==> Same(before, i, j)))
    && (forall i :: 1 <= i <= n ==> (num[i] > 0 <==> before[i] == 0))
    && (forall i, j :: 1 <= i < j <= n && num[i] > 0 && num[j] > 0 ==> num[i] < num[j])
    && (forall e :: 1 <= e <= numcl ==> Used(num, n, e))
  }

  ghost predicate NextLinks(fwd: seq<int>, lab: seq<int>) {
    |lab| <= |fwd| && forall k :: 1 <= k < |lab| ==> IsNext(lab, k, fwd[k])
  }

  /** The label of a symbol is its representative. */
  ghost predicate Represented(bck: seq<int>, lab: seq<int>) {
    |lab| <= |bck| && forall k :: 1 <= k < |lab| ==> 1 <= lab[k] <= k && (bck[k] == 0 <==> lab[k] == k)
  }

  lemma Representatives(fwd: seq<int>, bck: seq<int>, n: nat)
    requires WellLinked(fwd, bck, n)
    ensures NextLinks(fwd, Heads(bck, n)) && Represented(bck, Heads(bck, n))
  {
    LinkedByHeads(fwd, bck, n);
    forall k | 1 <= k <= n
      ensures 1 <= Head(bck, k) <= k && (bck[k] == 0 <==> Head(bck, k) == k)
    {
      HeadIsFirst(fwd, bck, Heads(bck, n), k);
      if bck[k] != 0 { HeadBelow(bck, bck[k]); }
    }
  }

  /** The numbering after the classes with representatives below i have their numbers, heads[e] being
      the representative numbered e. */
  ghost predicate Numbering(bck: seq<int>, before: seq<int>, lab: seq<int>, heads: seq<int>, i: int, numcl: int) {
    && |lab| <= |bck| && |lab| <= |before| && 0 <= numcl < i && |heads| == numcl + 1
    && (forall e :: 1 <= e <= numcl ==> 1 <= heads[e] < i && heads[e] < |lab| && lab[heads[e]] == heads[e])
    && (forall e, f :: 1 <= e < f <= numcl ==> heads[e] < heads[f])
    && (forall k :: 1 <= k < |lab| && lab[k] < i ==>
          1 <= Abs(bck[k]) <= numcl && heads[Abs(bck[k])] == lab[k] && (bck[k] > 0 <==> lab[k] == k))
    && (forall k :: 1 <= k < |lab| && lab[k] >= i ==> bck[k] == before[k])
  }

  ghost predicate Marked(after: seq<int>, before: seq<int>, lab: seq<int>, i: int, numcl: int) {
    && |after| == |before|
    && forall k :: 0 <= k < |after| ==> after[k] == if k == i then numcl else if i < k < |lab|
                                        && lab[k] == i then -numcl else before[k]
  }

  /** The inner loop of cre8ecs: representative i gets the number numcl, the members behind it -numcl. */
  method NumberList(fwd: array<int>, bck: array<int>, i: int, numcl: int, ghost before: seq<int>, ghost lab: seq<int>)
    requires fwd != bck && |lab| <= fwd.Length && |lab| <= bck.Length
    requires NextLinks(fwd[..], lab) && Represented(before, lab)
    requires 1 <= i < |lab| && before[i] == 0
    modifies bck
    ensures Marked(bck[..], old(bck[..]), lab, i, numcl)
  {
    bck[i] := numcl;
    var j := fwd[i];
    assert IsNext(lab, i, j);
    ghost var lim := if j == 0 then |lab| else j;
    while j != 0
      invariant 0 <= j < |lab| && lim == (if j == 0 then |lab| else j) && i < lim
      invariant j != 0 ==> lab[j] == i
      invariant forall k :: 0 <= k < bck.Length ==>
                  bck[k] == if k == i then numcl else if i < k < lim && k < |lab| && lab[k] == i
                      then -numcl else old(bck[k])
      decreases |lab| - lim
    {
      assert IsNext(lab, j, fwd[j]);
      bck[j] := -numcl;
      j := fwd[j];
      lim := if j == 0 then |lab| else j;
    }
  }

  /** cre8ecs: class numbers replace the backward links. */
  method Cre8Ecs(fwd: array<int>, bck: array<int>, num: nat) returns (numcl: int)
    requires fwd != bck && WellLinked(fwd[..], bck[..], num)
    modifies bck
    ensures 0 <= numcl <= num && Numbered(old(bck[..]), bck[..], num, numcl)
    ensures SameOutside(bck[..], old(bck[..]), num)
  {
    ghost var before, lab := bck[..], Heads(bck[..], num);
    ghost var heads: seq<int> := [0];
    Representatives(fwd[..], before, num);
    numcl := 0;
    var i := 1;
    assert Numbering(bck[..], before, lab, heads, i, numcl);
    SameOutsideRefl(before, num);
    hide Linked, WellLinked, IsNext, Numbering, Numbered, Heads, Head, Marked, SameOutside, NextLinks, Represented;
    while i <= num
      invariant 1 <= i <= num + 1
      invariant Numbering(bck[..], before, lab, heads, i, numcl)
      invariant SameOutside(bck[..], before, num)
    {
      ghost var bck0 := bck[..];
      NumberingAt(bck0, before, lab, heads, i, numcl);
      if bck[i] == 0 {
        numcl := numcl + 1;
        NumberList(fwd, bck, i, numcl, before, lab);
        NumberingStep(bck0, before, lab, heads, i, numcl, bck[..]);
        SameOutsideTrans(bck[..], bck0, before, num);
        heads := heads + [i];
      } else {
        NotRepresentative(fwd[..], before, num, i);
        NumberingSkip(bck0, before, lab, heads, i, numcl);
      }
      i := i + 1;
    }
    NumberingDone(bck[..], before, lab, heads, num, numcl);
  }

  lemma NumberingStep(bck: seq<int>, before: seq<int>, lab: seq<int>, heads: seq<int>, i: int, numcl: int,
                      bck': seq<int>)
    requires Numbering(bck, before, lab, heads, i, numcl - 1) && 1 <= i < |lab| && bck[i] == 0
    requires Represented(before, lab)
    requires Marked(bck', bck, lab, i, numcl)
    ensures Numbering(bck', before, lab, heads + [i], i + 1, numcl)
    ensures SameOutside(bck', bck, |lab| - 1)
  {
    assert lab[i] == i;
  }

  lemma NumberingAt(bck: seq<int>, before: seq<int>, lab: seq<int>, heads: seq<int>, i: int, numcl: int)
    requires Numbering(bck, before, lab, heads, i, numcl) && Represented(before, lab) && 1 <= i < |lab|
    ensures bck[i] == 0 <==> before[i] == 0
  {
    if lab[i] < i { assert Abs(bck[i]) != 0; }
  }

  lemma NumberingSkip(bck: seq<int>, before: seq<int>, lab: seq<int>, heads: seq<int>, i: int, numcl: int)
    requires Numbering(bck, before, lab, heads, i, numcl) && 1 <= i < |lab|
    requires i !in lab[1..]
    ensures Numbering(bck, before, lab, heads, i + 1, numcl)
  {
    assert forall k :: 1 <= k < |lab| ==> lab[k] in lab[1..];
  }

  lemma NotRepresentative(fwd: seq<int>, bck: seq<int>, n: nat, i: int)
    requires WellLinked(fwd, bck, n) && 1 <= i <= n && bck[i] != 0
    ensures i !in Heads(bck, n)[1..]
  {
    var lab := Heads(bck, n);
    LinkedByHeads(fwd, bck, n);
    forall k | 1 <= k <= n ensures lab[k] != i {
      HeadIsFirst(fwd, bck, lab, k);
      HeadIsFirst(fwd, bck, lab, i);
      HeadBelow(bck, bck[i]);
    }
  }

  lemma NumberingDone(bck: seq<int>, before: seq<int>, lab: seq<int>, heads: seq<int>, num: nat, numcl: int)
    requires lab == Heads(before, num) && num < |before| && Numbering(bck, before, lab, heads, num + 1, numcl)
    requires Represented(before, lab)
    ensures 0 <= numcl <= num && Numbered(before, bck, num, numcl)
  {
    forall i, j | 1 <= i < j <= num && bck[i] > 0 && bck[j] > 0 ensures bck[i] < bck[j] {
      assert heads[bck[i]] == i && heads[bck[j]] == j;
    }
    forall e | 1 <= e <= numcl ensures Used(bck, num, e) {
      assert Abs(bck[heads[e]]) == e;
    }
  }

  // ----- as many classes as characters

  lemma InOrder(before: seq<int>, num: seq<int>, n: nat, numcl: nat, i: int, j: int)
    requires Numbered(before, num, n, numcl) && 1 <= i <= n && 1 <= j <= n && 0 < num[i] < num[j]
    ensures i < j
  {}

  /** The representative with number e is not in front of symbol e. */
  lemma {:induction false} UsedBehind(before: seq<int>, num: seq<int>, n: nat, numcl: nat, e: int) returns (i: int)
    requires Numbered(before, num, n, numcl) && 1 <= e <= numcl
    ensures e <= i <= n && num[i] == e
  {
    assert Used(num, n, e);
    i :| 1 <= i <= n && num[i] == e;
    if e > 1 {
      var j := UsedBehind(before, num, n, numcl, e - 1);
      InOrder(before, num, n, numcl, j, i);
    }
  }

  lemma {:induction false} UsedExactly(before: seq<int>, num: seq<int>, n: nat, e: int)
    requires Numbered(before, num, n, n) && 1 <= e <= n
    ensures num[e] == e
    decreases n - e
  {
    var i := UsedBehind(before, num, n, n, e);
    if e < n {
      UsedExactly(before, num, n, e + 1);
      InOrder(before, num, n, n, i, e + 1);
    }
  }

  lemma {:induction false} AloneAtLeast(before: seq<int>, num: seq<int>, n: nat, numcl: nat, i: int)
    requires Numbered(before, num, n, numcl) && 1 <= i <= n && forall k :: 1 <= k <= n ==> before[k] == 0
    ensures num[i] >= i
  {
    if i > 1 { AloneAtLeast(before, num, n, numcl, i - 1); }
  }

  /** There are as many classes as symbols exactly when every symbol is alone on its list. */
  lemma AllAlone(before: seq<int>, num: seq<int>, n: nat, numcl: nat)
    requires Numbered(before, num, n, numcl) && n >= 1
    ensures numcl == n <==> forall i :: 1 <= i <= n ==> before[i] == 0
    ensures numcl == n ==> forall i :: 1 <= i <= n ==> num[i] == i
  {
    if numcl == n {
      forall i | 1 <= i <= n ensures before[i] == 0 && num[i] == i { UsedExactly(before, num, n, i); }
    }
    if forall i :: 1 <= i <= n ==> before[i] == 0 {
      AloneAtLeast(before, num, n, numcl, n);
      var i := UsedBehind(before, num, n, numcl, numcl);
    }
  }
}
