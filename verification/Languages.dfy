/** Sets of label words and the operations of regular expressions on them. */
module Languages {
  type Lang = iset<seq<int>>

  /** The language of the empty word alone. */
  ghost const UNIT: Lang := iset{[]}

  ghost function Cat(a: Lang, b: Lang): Lang {
    iset u, v | u in a && v in b :: u + v
  }

  /** Exactly n words of a in a row. */
  ghost function Pow(a: Lang, n: nat): Lang {
    if n == 0 then UNIT else Cat(a, Pow(a, n - 1))
  }

  ghost function Star(a: Lang): Lang {
    iset w, n: nat | w in Pow(a, n) :: w
  }

  ghost function Plus(a: Lang): Lang {
    Cat(a, Star(a))
  }

  /** At least lo and at most hi words of a in a row. */
  ghost function Times(a: Lang, lo: nat, hi: nat): Lang {
    iset w, n: nat | lo <= n <= hi && w in Pow(a, n) :: w
  }

  ghost function AtLeast(a: Lang, lo: nat): Lang {
    iset w, n: nat | lo <= n && w in Pow(a, n) :: w
  }

  lemma InCat(u: seq<int>, v: seq<int>, a: Lang, b: Lang)
    requires u in a && v in b
    ensures u + v in Cat(a, b)
  {}

  lemma CatAssoc(a: Lang, b: Lang, c: Lang)
    ensures Cat(Cat(a, b), c) == Cat(a, Cat(b, c))
  {
    forall w | w in Cat(Cat(a, b), c) ensures w in Cat(a, Cat(b, c)) {
      var x, v :| x in Cat(a, b) && v in c && w == x + v;
      var s, t :| s in a && t in b && x == s + t;
      InCat(t, v, b, c);
      InCat(s, t + v, a, Cat(b, c));
      assert w == s + (t + v);
    }
    forall w | w in Cat(a, Cat(b, c)) ensures w in Cat(Cat(a, b), c) {
      var s, x :| s in a && x in Cat(b, c) && w == s + x;
      var t, v :| t in b && v in c && x == t + v;
      InCat(s, t, a, b);
      InCat(s + t, v, Cat(a, b), c);
      assert w == (s + t) + v;
    }
  }

  lemma CatUnit(a: Lang)
    ensures Cat(a, UNIT) == a && Cat(UNIT, a) == a
  {
    hide Cat;
    forall w ensures w in Cat(a, UNIT) <==> w in a { CatUnitAt(a, w); }
    forall w ensures w in Cat(UNIT, a) <==> w in a { CatUnitAt(a, w); }
  }

  lemma CatUnitAt(a: Lang, w: seq<int>)
    ensures w in Cat(a, UNIT) <==> w in a
    ensures w in Cat(UNIT, a) <==> w in a
  {
    var none: seq<int> := [];
    assert w + none == w && none + w == w;
    if w in Cat(a, UNIT) {
      var u, v :| u in a && v in UNIT && w == u + v;
      assert u == w;
    }
    if w in Cat(UNIT, a) {
      var u, v :| u in UNIT && v in a && w == u + v;
      assert v == w;
    }
    if w in a {
      InCat(w, none, a, UNIT);
      InCat(none, w, UNIT, a);
    }
  }

  lemma CatEmpty(a: Lang)
    ensures Cat(a, iset{}) == iset{} && Cat(iset{}, a) == iset{}
  {}

  lemma CatUnion(a: Lang, b: Lang, c: Lang)
    ensures Cat(a + b, c) == Cat(a, c) + Cat(b, c) && Cat(a, b + c) == Cat(a, b) + Cat(a, c)
  {
    hide Cat;
    forall w ensures w in Cat(a + b, c) <==> w in Cat(a, c) + Cat(b, c) { CatUnionAt(a, b, c, w); }
    forall w ensures w in Cat(a, b + c) <==> w in Cat(a, b) + Cat(a, c) { CatUnionAt(a, b, c, w); }
  }

  lemma CatUnionAt(a: Lang, b: Lang, c: Lang, w: seq<int>)
    ensures w in Cat(a + b, c) <==> w in Cat(a, c) + Cat(b, c)
    ensures w in Cat(a, b + c) <==> w in Cat(a, b) + Cat(a, c)
  {}

  lemma StarEmpty()
    ensures Star(iset{}) == UNIT
  {
    forall n: nat ensures Pow(iset{}, n) == if n == 0 then UNIT else iset{} {}
    assert [] in Pow(iset{}, 0);
  }

  /** A star is empty, or one word and then a star. */
  lemma StarUnroll(a: Lang)
    ensures Star(a) == UNIT + Cat(a, Star(a))
  {
    forall w | w in Star(a) ensures w in UNIT + Cat(a, Star(a)) {
      var n: nat :| w in Pow(a, n);
      if n > 0 {
        var u, v :| u in a && v in Pow(a, n - 1) && w == u + v;
        InCat(u, v, a, Star(a));
      }
    }
    forall w | w in UNIT + Cat(a, Star(a)) ensures w in Star(a) {
      if w in Cat(a, Star(a)) {
        var u, v :| u in a && v in Star(a) && w == u + v;
        var n: nat :| v in Pow(a, n);
        InCat(u, v, a, Pow(a, n));
        assert w in Pow(a, n + 1);
      } else {
        assert w in Pow(a, 0);
      }
    }
  }

  lemma {:induction false} PowAdd(a: Lang, m: nat, n: nat)
    ensures Cat(Pow(a, m), Pow(a, n)) == Pow(a, m + n)
  {
    hide Cat;
    if m == 0 {
      CatUnit(Pow(a, n));
    } else {
      PowAdd(a, m - 1, n);
      CatAssoc(a, Pow(a, m - 1), Pow(a, n));
    }
  }

  /** m + n words split after the first m. */
  lemma PowSplit(a: Lang, m: nat, n: nat, w: seq<int>) returns (u: seq<int>, v: seq<int>)
    requires w in Pow(a, m + n)
    ensures u in Pow(a, m) && v in Pow(a, n) && w == u + v
  {
    PowAdd(a, m, n);
    hide Pow;
    u, v :| u in Pow(a, m) && v in Pow(a, n) && w == u + v;
  }

  lemma PowJoin(a: Lang, m: nat, n: nat, u: seq<int>, v: seq<int>)
    requires u in Pow(a, m) && v in Pow(a, n)
    ensures u + v in Pow(a, m + n)
  {
    PowAdd(a, m, n);
    hide Pow;
    InCat(u, v, Pow(a, m), Pow(a, n));
  }

  lemma PowOne(a: Lang)
    ensures Pow(a, 1) == a
  {
    CatUnit(a);
  }

  /** A loop closed behind a: once, or on and on with a last round. */
  lemma PlusLoop(a: Lang)
    ensures a + Cat(a, Cat(Star(a), a)) == Plus(a)
  {
    StarSnoc(a);
    CatUnit(a);
    CatUnion(a, UNIT, Cat(Star(a), a));
  }

  lemma StarSnoc(a: Lang)
    ensures Star(a) == UNIT + Cat(Star(a), a)
  {
    PowOne(a);
    assert [] in Pow(a, 0);
    hide Pow;
    forall w | w in Star(a) ensures w in UNIT + Cat(Star(a), a) {
      var n: nat :| w in Pow(a, n);
      if n > 0 {
        var u, v := PowSplit(a, n - 1, 1, w);
        InCat(u, v, Star(a), a);
      } else {
        PowNone(a);
      }
    }
    forall w | w in Cat(Star(a), a) ensures w in Star(a) {
      var u, v :| u in Star(a) && v in a && w == u + v;
      var n: nat :| u in Pow(a, n);
      PowJoin(a, n, 1, u, v);
    }
  }

  lemma PowNone(a: Lang)
    ensures Pow(a, 0) == UNIT
  {}

  /** a+ made optional is a star. */
  lemma OptPlus(a: Lang)
    ensures UNIT + Plus(a) == Star(a)
  {
    StarUnroll(a);
  }

  /** lo words and then a star: lo words or more. */
  lemma PowStar(a: Lang, lo: nat)
    ensures Cat(Pow(a, lo), Star(a)) == AtLeast(a, lo)
  {
    hide Pow;
    forall w | w in Cat(Pow(a, lo), Star(a)) ensures w in AtLeast(a, lo) {
      var u, v :| u in Pow(a, lo) && v in Star(a) && w == u + v;
      var n: nat :| v in Pow(a, n);
      PowJoin(a, lo, n, u, v);
    }
    forall w | w in AtLeast(a, lo) ensures w in Cat(Pow(a, lo), Star(a)) {
      var n: nat :| lo <= n && w in Pow(a, n);
      var u, v := PowSplit(a, lo, n - lo, w);
      InCat(u, v, Pow(a, lo), Star(a));
    }
  }

  /** Up to k + 1 words are none, or one and then up to k. */
  lemma TimesNest(a: Lang, k: nat)
    ensures UNIT + Cat(a, Times(a, 0, k)) == Times(a, 0, k + 1)
  {
    forall w | w in UNIT + Cat(a, Times(a, 0, k)) ensures w in Times(a, 0, k + 1) {
      if w in Cat(a, Times(a, 0, k)) {
        var u, v :| u in a && v in Times(a, 0, k) && w == u + v;
        var n: nat :| n <= k && v in Pow(a, n);
        InCat(u, v, a, Pow(a, n));
        assert w in Pow(a, n + 1);
      } else {
        assert w in Pow(a, 0);
      }
    }
    forall w | w in Times(a, 0, k + 1) ensures w in UNIT + Cat(a, Times(a, 0, k)) {
      var n: nat :| n <= k + 1 && w in Pow(a, n);
      if n > 0 {
        var u, v :| u in a && v in Pow(a, n - 1) && w == u + v;
        InCat(u, v, a, Times(a, 0, k));
      }
    }
  }

  lemma TimesNone(a: Lang)
    ensures Times(a, 0, 0) == UNIT
  {
    assert [] in Pow(a, 0);
  }

  lemma PowTimes(a: Lang, lo: nat, k: nat)
    ensures Cat(Pow(a, lo), Times(a, 0, k)) == Times(a, lo, lo + k)
  {
    hide Pow;
    forall w | w in Cat(Pow(a, lo), Times(a, 0, k)) ensures w in Times(a, lo, lo + k) {
      var u, v :| u in Pow(a, lo) && v in Times(a, 0, k) && w == u + v;
      var n: nat :| n <= k && v in Pow(a, n);
      PowJoin(a, lo, n, u, v);
    }
    forall w | w in Times(a, lo, lo + k) ensures w in Cat(Pow(a, lo), Times(a, 0, k)) {
      var n: nat :| lo <= n <= lo + k && w in Pow(a, n);
      var u, v := PowSplit(a, lo, n - lo, w);
      InCat(u, v, Pow(a, lo), Times(a, 0, k));
    }
  }
}
