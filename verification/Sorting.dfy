/** The sorts of misc.c: bubble for the NFA state sets, cshell for the character classes. */
module Sorting {
  /** b holds the elements of a in some order; outside lo..hi nothing has moved. */
  ghost predicate Permuted(a: seq<int>, b: seq<int>, lo: int, hi: int) {
    && |a| == |b| && 0 <= lo <= hi <= |a|
    && multiset(a[lo..hi]) == multiset(b[lo..hi])
    && forall k :: 0 <= k < |a| && !(lo <= k < hi) ==> b[k] == a[k]
  }

  lemma PermutedRefl(a: seq<int>, lo: int, hi: int)
    requires 0 <= lo <= hi <= |a|
    ensures Permuted(a, a, lo, hi)
  {}

  lemma PermutedSwap(a: seq<int>, b: seq<int>, lo: int, hi: int, i: int, j: int)
    requires Permuted(a, b, lo, hi) && lo <= i < j < hi
    ensures Permuted(a, b[i := b[j]][j := b[i]], lo, hi)
  {
    var c, s := b[i := b[j]][j := b[i]], b[lo..hi];
    assert c[lo..hi] == s[i - lo := s[j - lo]][j - lo := s[i - lo]];
  }

  /** The order in which v[lo..hi] is to be put: by key, where NUL may weigh more than all others. */
  function Key(x: int, nulLast: bool): int {
    if nulLast && x == 0 then 0x7fff_ffff else x
  }

  ghost predicate Ordered(v: seq<int>, lo: int, hi: int, nulLast: bool) {
    0 <= lo <= hi <= |v| && forall p, q :: lo <= p < q < hi ==> Key(v[p], nulLast) <= Key(v[q], nulLast)
  }

  method Swap(v: array<int>, i: int, j: int)
    requires 0 <= i < j < v.Length
    modifies v
    ensures v[..] == old(v[..])[i := old(v[j])][j := old(v[i])]
  {
    var k := v[i];
    v[i] := v[j];
    v[j] := k;
  }

  // ----- bubble

  /** Positions behind i are in place. */
  ghost predicate Settled(v: seq<int>, i: int, n: int) {
    0 <= i <= n < |v| && forall p, q :: 1 <= p < q <= n && q > i ==> v[p] <= v[q]
  }

  /** v[j] is the largest of v[1..j]. */
  ghost predicate Largest(v: seq<int>, j: int) {
    1 <= j < |v| && forall p :: 1 <= p < j ==> v[p] <= v[j]
  }

  lemma SettledSwap(v: seq<int>, i: int, n: int, j: int)
    requires Settled(v, i, n) && Largest(v, j) && j < i <= n && v[j] > v[j + 1]
    ensures Settled(v[j := v[j + 1]][j + 1 := v[j]], i, n) && Largest(v[j := v[j + 1]][j + 1 := v[j]], j + 1)
  {}

  lemma SettledMore(v: seq<int>, i: int, n: int)
    requires Settled(v, i, n) && i >= 1 && Largest(v, i)
    ensures Settled(v, i - 1, n)
  {}

  /** bubble. */
  method Bubble(v: array<int>, n: int)
    requires 0 <= n < v.Length
    modifies v
    ensures Permuted(old(v[..]), v[..], 1, n + 1)
    ensures Ordered(v[..], 1, n + 1, false)
  {
    hide Permuted, Settled, Largest;
    var i := n;
    PermutedRefl(v[..], 1, n + 1);
    SettledNone(v[..], n);
    while i > 1
      invariant 0 <= i <= n
      invariant Permuted(old(v[..]), v[..], 1, n + 1) && Settled(v[..], i, n)
    {
      var j := 1;
      LargestFirst(v[..]);
      while j < i
        invariant 1 <= j <= i
        invariant Permuted(old(v[..]), v[..], 1, n + 1) && Settled(v[..], i, n) && Largest(v[..], j)
      {
        if v[j] > v[j + 1] {
          PermutedSwap(old(v[..]), v[..], 1, n + 1, j, j + 1);
          SettledSwap(v[..], i, n, j);
          Swap(v, j, j + 1);
        } else {
          LargestNext(v[..], j);
        }
        j := j + 1;
      }
      SettledMore(v[..], i, n);
      i := i - 1;
    }
    SettledAll(v[..], i, n);
  }

  lemma SettledNone(v: seq<int>, n: int)
    requires 0 <= n < |v|
    ensures Settled(v, n, n)
  {}

  lemma LargestFirst(v: seq<int>)
    requires 1 < |v|
    ensures Largest(v, 1)
  {}

  lemma LargestNext(v: seq<int>, j: int)
    requires Largest(v, j) && j + 1 < |v| && v[j] <= v[j + 1]
    ensures Largest(v, j + 1)
  {}

  lemma SettledAll(v: seq<int>, i: int, n: int)
    requires Settled(v, i, n) && i <= 1
    ensures Ordered(v, 1, n + 1, false)
  {}

  // ----- cshell

  /** With gap 1: v[lo..i] in order. With larger gaps nothing is claimed. */
  ghost predicate Passed(v: seq<int>, lo: int, i: int, gap: int, nulLast: bool) {
    gap == 1 ==> lo <= i && Ordered(v, lo, i, nulLast)
  }

  /** With gap 1: v[lo..i + 1] in order but for the element at m, which still has to move down. */
  ghost predicate Sinking(v: seq<int>, lo: int, i: int, m: int, gap: int, nulLast: bool) {
    gap == 1 ==>
      && 0 <= lo <= m <= i < |v|
      && (forall p, q :: lo <= p < q <= i && p != m && q != m ==> Key(v[p], nulLast) <= Key(v[q], nulLast))
      && (forall q :: m < q <= i ==> Key(v[m], nulLast) <= Key(v[q], nulLast))
  }

  lemma SinkStart(v: seq<int>, lo: int, i: int, gap: int, nulLast: bool)
    requires Passed(v, lo, i, gap, nulLast) && i < |v|
    ensures Sinking(v, lo, i, i, gap, nulLast)
  {}

  lemma SinkStep(v: seq<int>, lo: int, i: int, m: int, gap: int, nulLast: bool)
    requires Sinking(v, lo, i, m, gap, nulLast) && gap >= 1 && lo <= m - gap && m <= i < |v| && 0 <= lo
    requires Key(v[m - gap], nulLast) > Key(v[m], nulLast)
    ensures Sinking(v[m - gap := v[m]][m := v[m - gap]], lo, i, m - gap, gap, nulLast)
  {}

  lemma SinkDone(v: seq<int>, lo: int, i: int, m: int, gap: int, nulLast: bool)
    requires Sinking(v, lo, i, m, gap, nulLast) && lo <= m <= i < |v| && 0 <= lo && gap >= 1
    requires m - gap < lo || Key(v[m - gap], nulLast) <= Key(v[m], nulLast)
    ensures Passed(v, lo, i + 1, gap, nulLast)
  {}

  /** cshell on the n elements of v from off on. */
  method CShell(v: array<int>, off: int, n: int, specialCase0: bool)
    requires 0 <= off && 0 <= n && off + n <= v.Length
    requires forall k :: off <= k < off + n ==> 0 <= v[k] < 256
    modifies v
    ensures Permuted(old(v[..]), v[..], off, off + n)
    ensures Ordered(v[..], off, off + n, specialCase0)
  {
    hide Permuted, Passed, Sinking, Ordered;
    ghost var before := v[..];
    PermutedRefl(before, off, off + n);
    var gap := n / 2;
    ShortOrdered(before, off, n, specialCase0);
    while gap > 0
      invariant 0 <= gap <= n
      invariant Permuted(before, v[..], off, off + n)
      invariant gap == 0 ==> Ordered(v[..], off, off + n, specialCase0)
    {
      var i := gap;
      PassedStart(v[..], off, gap, specialCase0);
      while i < n
        invariant gap <= i && (i <= n || i == gap)
        invariant Permuted(before, v[..], off, off + n) && Passed(v[..], off, off + i, gap, specialCase0)
      {
        Sink(v, off, n, i, gap, specialCase0, before);
        i := i + 1;
      }
      PassedEnd(v[..], off, i, n, gap, specialCase0);
      gap := gap / 2;
    }
  }

  /** The inner loop of cshell: the element at i moves down in steps of gap. */
  method Sink(v: array<int>, off: int, n: int, i: int, gap: int, specialCase0: bool, ghost before: seq<int>)
    requires 0 <= off && 0 < gap <= i < n && off + n <= v.Length
    requires |before| == v.Length && forall k :: off <= k < off + n ==> 0 <= before[k] < 256
    requires Permuted(before, v[..], off, off + n) && Passed(v[..], off, off + i, gap, specialCase0)
    modifies v
    ensures Permuted(before, v[..], off, off + n) && Passed(v[..], off, off + i + 1, gap, specialCase0)
  {
    hide Permuted, Passed, Sinking;
    var j := i - gap;
    SinkStart(v[..], off, off + i, gap, specialCase0);
    while j >= 0
      invariant -gap <= j <= i - gap
      invariant Permuted(before, v[..], off, off + n) && Sinking(v[..], off, off + i, off + j + gap, gap, specialCase0)
    {
      var jg := j + gap;
      Range(before, v[..], off, n, off + j);
      Range(before, v[..], off, n, off + jg);
      if specialCase0 {
        if v[off + jg] == 0 {
          break;
        } else if v[off + j] != 0 && v[off + j] <= v[off + jg] {
          break;
        }
      } else if v[off + j] <= v[off + jg] {
        break;
      }
      SinkStep(v[..], off, off + i, off + jg, gap, specialCase0);
      PermutedSwap(before, v[..], off, off + n, off + j, off + jg);
      Swap(v, off + j, off + jg);
      j := j - gap;
    }
    SinkDone(v[..], off, off + i, off + j + gap, gap, specialCase0);
  }

  lemma Range(a: seq<int>, b: seq<int>, off: int, n: int, k: int)
    requires Permuted(a, b, off, off + n) && off <= k < off + n && forall i :: off <= i < off + n ==> 0 <= a[i] < 256
    ensures 0 <= b[k] < 256
  {
    assert b[k] in multiset(b[off..off + n]) by { assert b[off..off + n][k - off] == b[k]; }
    assert b[k] in a[off..off + n];
  }

  lemma ShortOrdered(v: seq<int>, off: int, n: int, nulLast: bool)
    requires 0 <= off && 0 <= n && off + n <= |v|
    ensures n / 2 == 0 ==> Ordered(v, off, off + n, nulLast)
  {}

  lemma PassedStart(v: seq<int>, off: int, gap: int, nulLast: bool)
    requires 0 <= off && off + gap <= |v| && gap >= 1
    ensures Passed(v, off, off + gap, gap, nulLast)
  {}

  lemma PassedEnd(v: seq<int>, off: int, i: int, n: int, gap: int, nulLast: bool)
    requires Passed(v, off, off + i, gap, nulLast) && i >= n && (i <= n || i == gap) && gap >= 1 && gap <= n
    ensures gap / 2 == 0 ==> Ordered(v, off, off + n, nulLast)
  {}
}
