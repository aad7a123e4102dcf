/** Division of a double word by a normalized word with the help of a precomputed reciprocal (gmp-impl.h). */
module Preinv {
  import opened LongLong

  /** DI: the largest word not above base^2 / d - base, or the largest word of all where that would be too large. */
  function Reciprocal(k: nat, d: int): (di: int)
    requires k >= 1 && Normalized(k, d)
  {
    var x := Base(k) * Base(k) / d - Base(k);
    if x < Base(k) then x else Base(k) - 1
  }

  /** What base + di lacks to base^2 / d, multiplied by d. */
  function Lack(base: int, d: int, di: int): int {
    base * base - (base + di) * d
  }

  lemma CloseWord(base: int, d: int, z: int)
    requires 0 < d < base <= 2 * d && z * d <= base * base < z * d + d
    ensures base <= z <= 2 * base && Lack(base, d, z - base) >= 0 && Lack(base, d, z - base) < d
    ensures z == 2 * base ==> Lack(base, d, base - 1) == d
  {
    assert (base + (z - base)) * d == z * d;
    assert (base + (base - 1)) * d == 2 * (base * d) - d;
    Steeper(base - 1, d, base);
    assert (base - 1) * base == base * base - base;
    if z < base { Steeper(base - 1, z, d); }
    if z > 2 * base { Steeper(z, 2 * base + 1, d); }
    Steeper(2 * d, base, base);
  }

  /** The reciprocal is a word and falls short by at most 1. */
  lemma ReciprocalClose(k: nat, d: int)
    requires k >= 1 && Normalized(k, d)
    ensures IsWord(k, Reciprocal(k, d)) && 0 <= Lack(Base(k), d, Reciprocal(k, d)) <= d
  {
    hide Base, Lack;
    var base := Base(k);
    CloseWord(base, d, base * base / d);
  }

  lemma SmallMod(x: int, m: int)
    requires 0 <= x < m
    ensures x % m == x
  {
    DivUnique(x, m, 0, x);
  }

  /** base * x determines x when its bounds are multiples of base. */
  lemma Cancel(base: int, x: int, m: int)
    requires base > 0 && 0 <= base * x < base * m
    ensures 0 <= x < m
  {
    if x < 0 { Steeper(-1, x, base); }
    if x >= m { Steeper(x, m, base); }
  }

  // ----- udiv_qrnnd_preinv

  lemma FullIdentity(base: int, d: int, di: int, nh: int, qh: int, ql: int)
    requires qh * base + ql == nh * di
    ensures base * (nh * base - (qh + nh) * d) == nh * Lack(base, d, di) + ql * d
  {
    var q, v := qh + nh, base + di;
    assert nh * v == nh * base + nh * di == q * base + ql;
    assert nh * (v * d) == (nh * v) * d == (q * base) * d + ql * d;
    assert nh * Lack(base, d, di) == nh * (base * base) - nh * (v * d);
    assert base * (nh * base - q * d) == nh * (base * base) - (q * base) * d;
  }

  lemma QuotientWithin(n: int, d: int, q: int, m: nat)
    requires d > 0 && 0 <= n - q * d < (m + 1) * d
    ensures q <= n / d <= q + m
  {
    var r := (n - q * d) / d;
    var s := (n - q * d) % d;
    assert n - q * d == r * d + s;
    assert n == (q + r) * d + s;
    DivUnique(n, d, q + r, s);
    if r > m { Steeper(r, m + 1, d); }
    if r < 0 { Steeper(-1, r, d); }
  }

  lemma SumBound(base: int, d: int, nh: int, e: int, ql: int)
    requires 0 <= nh < base && 0 <= e <= d && 0 <= ql < base && d > 0
    ensures 0 <= nh * e + ql * d < base * (2 * d)
  {
    Product(nh, e, base - 1, d);
    Product(ql, d, base - 1, d);
    assert (base - 1) * d == base * d - d;
    assert base * (2 * d) == base * d + base * d;
  }

  /** The estimate is never too large and at most 3 too small. */
  lemma FullEstimate(base: int, d: int, di: int, nh: int, nl: int, qh: int, ql: int)
    requires 0 <= nh < d < base <= 2 * d && 0 <= nl < base && 0 <= ql < base && 0 <= Lack(base, d, di) <= d
    requires qh * base + ql == nh * di
    ensures 0 <= (nh * base + nl) - (qh + nh) * d < base + 2 * d
    ensures qh + nh <= (nh * base + nl) / d <= qh + nh + 3
  {
    hide Lack;
    FullIdentity(base, d, di, nh, qh, ql);
    SumBound(base, d, nh, Lack(base, d, di), ql);
    Cancel(base, nh * base - (qh + nh) * d, 2 * d);
    assert (3 + 1) * d == 4 * d;
    QuotientWithin(nh * base + nl, d, qh + nh, 3);
  }

  /** A quotient estimate that is not too large is a word. */
  lemma EstimateWord(base: int, d: int, nh: int, nl: int, q: int)
    requires 0 <= nh < d < base && 0 <= nl < base && q * d <= nh * base + nl
    ensures q < base
  {
    Steeper(d - 1, nh, base);
    assert (d - 1) * base == d * base - base;
    if q >= base { Steeper(q, base, d); }
  }

  lemma OneMore(q: int, d: int)
    ensures (q + 1) * d == q * d + d
  {}

  lemma HighZero(base: int, h: int, l: int)
    requires base > 0 && 0 <= l < base && h >= 0
    ensures h == 0 <==> h * base + l < base
  {
    if h >= 1 { Steeper(h, 1, base); }
  }

  /** One correction step of udiv_qrnnd_preinv: the divisor is taken from the double-word remainder and the quotient
      grows. */
  method Correct(k: nat, xh: int, r: int, q: int, d: int, ghost n: int) returns (xh': int, r': int, q': int)
    requires k >= 1 && IsWord(k, xh) && IsWord(k, r) && IsWord(k, q) && IsWord(k, d) && IsWord(k, q + 1)
    requires xh != 0 && n == q * d + Double(k, xh, r)
    ensures IsWord(k, xh') && IsWord(k, r') && q' == q + 1 && n == q' * d + Double(k, xh', r')
  {
    hide Base, Wrap;
    DoubleFits(k, xh, r);
    HighZero(Base(k), xh, r);
    SmallMod(Double(k, xh, r) - Double(k, 0, d), Base(k) * Base(k));
    xh', r' := SubDdmmss(k, xh, r, 0, d);
    WrapIs(k, q + 1, 0, q + 1);
    q' := Wrap(k, q + 1);
    OneMore(q, d);
  }

  /** udiv_qrnnd_preinv: a quotient estimate from the reciprocal, then up to three corrections. */
  method UdivQrnndPreinv(k: nat, nh: int, nl: int, d: int, di: int) returns (q: int, r: int)
    requires k >= 1 && IsWord(k, nl) && Normalized(k, d) && 0 <= nh < d && di == Reciprocal(k, d)
    ensures q == Double(k, nh, nl) / d && r == Double(k, nh, nl) % d && IsWord(k, q)
  {
    hide Base, Wrap, Reciprocal, Lack;
    ghost var base, n := Base(k), Double(k, nh, nl);
    ReciprocalClose(k, d);
    var ql;
    q, ql := UmulPpmm(k, nh, di);
    FullEstimate(base, d, di, nh, nl, q, ql);
    EstimateWord(base, d, nh, nl, q + nh);
    WrapIs(k, q + nh, 0, q + nh);
    q := Wrap(k, q + nh);
    var xh, xl := UmulPpmm(k, q, d);
    DoubleFits(k, nh, nl);
    DoubleFits(k, xh, xl);
    SmallMod(Double(k, nh, nl) - Double(k, xh, xl), base * base);
    xh, r := SubDdmmss(k, nh, nl, xh, xl);
    OneMore(q, d);
    OneMore(q + 1, d);
    OneMore(q + 2, d);
    ghost var q0 := q;
    HighZero(base, xh, r);
    if xh != 0 {
      EstimateWord(base, d, nh, nl, q + 1);
      xh, r, q := Correct(k, xh, r, q, d, n);
      HighZero(base, xh, r);
      if xh != 0 {
        EstimateWord(base, d, nh, nl, q + 1);
        xh, r, q := Correct(k, xh, r, q, d, n);
        HighZero(base, xh, r);
      }
    }
    assert xh == 0 && n == q * d + r;
    if r >= d {
      WrapIs(k, r - d, 0, r - d);
      r := Wrap(k, r - d);
      OneMore(q, d);
      EstimateWord(base, d, nh, nl, q + 1);
      WrapIs(k, q + 1, 0, q + 1);
      q := Wrap(k, q + 1);
    }
    DivUnique(n, d, q, r);
  }

  // ----- udiv_qrnnd_preinv2norm

  /** The sign bit of x, shifted arithmetically over the whole word. */
  function SignMask(k: nat, x: int): (m: int)
    requires k >= 1
    ensures m == 0 || m == Base(k) - 1
  {
    if 2 * x >= Base(k) then Base(k) - 1 else 0
  }

  /** x & m, where the bits of m are all equal. */
  function Masked(k: nat, x: int, m: int): int
    requires k >= 1 && (m == 0 || m == Base(k) - 1)
  {
    if m == 0 then 0 else x
  }

  function Not(k: nat, x: int): int
    requires k >= 1
  {
    Base(k) - 1 - x
  }

  /** What the adjusted estimate loses, multiplied by d; s is the sign bit of nl. */
  function Loss(base: int, d: int, e: int, nh: int, nl: int, s: int): int {
    (nh + s) * e + (base - d) * (nl - s * (base - d))
  }

  lemma SumTimes(d: int, base: int, xh: int, xl: int)
    ensures d * (xh * base + xl) == base * (xh * d) + xl * d
  {
    assert d * (xh * base) == base * (xh * d);
  }

  lemma TermTimes(base: int, d: int, nh: int, nl: int, xh: int)
    ensures base * ((nh * base + nl) - (nh + xh) * d) == nh * (base * base)
            + base * nl - nh * (base * d) - base * (xh * d)
  {
    assert base * (nh * base) == nh * (base * base);
    assert base * (nh * d) == nh * (base * d);
    assert (nh + xh) * d == nh * d + xh * d;
  }

  /** The product of the reciprocal, multiplied by d. */
  lemma ReciprocalTimes(base: int, d: int, di: int, m: int)
    ensures d * (di * m) == m * (base * base) - m * (base * d) - m * Lack(base, d, di)
  {
    assert (base + di) * d == base * d + d * di;
    assert m * Lack(base, d, di) == m * (base * base) - m * (base * d) - m * (d * di);
    assert d * (di * m) == m * (d * di);
  }

  lemma LossTimes(base: int, d: int, e: int, nh: int, nl: int)
    ensures Loss(base, d, e, nh, nl, 0) == nh * e + base * nl - d * nl
    ensures Loss(base, d, e, nh, nl, 1) == (nh + 1) * e + base * nl - d * nl - (base * base - 2 * (base * d) + d * d)
  {
    assert (base - d) * nl == base * nl - d * nl;
    assert (base - d) * (base - d) == base * base - 2 * (base * d) + d * d;
    assert (base - d) * (nl - (base - d)) == (base - d) * nl - (base - d) * (base - d);
  }

  /** The last step of AdjustedIdentity with a name for every product. */
  lemma Combine(goal: int, loss: int, u: int, v: int, z: int, c: int, me: int, basenl: int, dnl: int, dd: int, bb: int,
                bd: int, s: int)
    requires z + basenl - u == goal && c == z + s * bb - s * bd - me && u + v == c + (dnl + s * (dd - bd))
    requires loss == me + basenl - dnl - s * (bb - 2 * bd + dd) && (s == 0 || s == 1)
    ensures goal == v + loss
  {}

  lemma NextTimes(nh: int, s: int, x: int)
    ensures (nh + s) * x == nh * x + s * x
  {}

  lemma AddendTimes(d: int, nl: int, s: int, base: int)
    requires s == 0 || s == 1
    ensures d * (nl + s * (d - base)) == d * nl + s * (d * d - base * d)
  {}

  lemma AdjustedIdentity(base: int, d: int, di: int, nh: int, nl: int, s: int, xh: int, xl: int)
    requires (s == 0 || s == 1) && xh * base + xl == di * (nh + s) + (nl + s * (d - base))
    ensures base * ((nh * base + nl) - (nh + xh) * d) == xl * d + Loss(base, d, Lack(base, d, di), nh, nl, s)
  {
    hide Loss, Lack;
    var bb, bd, e := base * base, base * d, Lack(base, d, di);
    SumTimes(d, base, xh, xl);
    TermTimes(base, d, nh, nl, xh);
    ReciprocalTimes(base, d, di, nh + s);
    LossTimes(base, d, e, nh, nl);
    SumOfTwo(d, di * (nh + s), nl + s * (d - base));
    AddendTimes(d, nl, s, base);
    NextTimes(nh, s, bb);
    NextTimes(nh, s, bd);
    Combine(base * ((nh * base + nl) - (nh + xh) * d), Loss(base, d, e, nh, nl, s), base * (xh * d),
        xl * d, nh * bb - nh * bd,
            d * (di * (nh + s)), (nh + s) * e, base * nl, d * nl, d * d, bb, bd, s);
  }

  lemma SumOfTwo(d: int, x: int, y: int)
    ensures d * (x + y) == d * x + d * y
  {}

  lemma LossBound(base: int, d: int, e: int, nh: int, nl: int, s: int)
    requires 0 <= nh < d < base <= 2 * d && 0 <= e <= d && 0 <= nl < base && s == (if 2 * nl >= base then 1 else 0)
    ensures 0 <= Loss(base, d, e, nh, nl, s) <= base * d
  {
    if s == 0 {
      Product(nh, e, d - 1, d);
      Product(base - d, 2 * nl, base - d, base);
      Product(2 * d - base, base - d, 2 * d - base, base - d);
      assert (2 * d - base) * (base - d) == 3 * (base * d) - 2 * (d * d) - base * base;
      assert (base - d) * base == base * base - base * d;
      assert (base - d) * (2 * nl) == 2 * ((base - d) * nl);
      assert (d - 1) * d == d * d - d;
    } else {
      Product(nh + 1, e, d, d);
      Product(base - d, nl - (base - d), base - d, d);
      assert (base - d) * d == base * d - d * d;
    }
  }

  lemma LowTerm(base: int, d: int, xl: int)
    requires 0 <= xl < base && 0 < d
    ensures 0 <= xl * d <= base * d - d && base * (2 * d) == base * d + base * d
  {
    Product(xl, d, base - 1, d);
    assert (base - 1) * d == base * d - d;
  }

  /** The adjusted estimate is never too large and at most 1 too small. */
  lemma AdjustedEstimate(base: int, d: int, di: int, nh: int, nl: int, s: int, xh: int, xl: int)
    requires 0 <= nh < d < base <= 2 * d && 0 <= nl < base && 0 <= Lack(base, d, di) <= d && 0 <= xl < base
    requires s == (if 2 * nl >= base then 1 else 0) && xh * base + xl == di * (nh + s) + (nl + s * (d - base))
    ensures 0 <= (nh * base + nl) - (nh + xh) * d < 2 * d
    ensures nh + xh <= (nh * base + nl) / d <= nh + xh + 1
  {
    hide Lack, Loss;
    AdjustedIdentity(base, d, di, nh, nl, s, xh, xl);
    LossBound(base, d, Lack(base, d, di), nh, nl, s);
    LowTerm(base, d, xl);
    Cancel(base, (nh * base + nl) - (nh + xh) * d, 2 * d);
    assert (1 + 1) * d == 2 * d;
    QuotientWithin(nh * base + nl, d, nh + xh, 1);
  }

  /** The sum that gives the adjusted estimate does not wrap. */
  lemma AdjustedSum(base: int, d: int, di: int, nh: int, nl: int, s: int)
    requires 0 <= nh < d < base <= 2 * d && 0 <= nl < base && 0 <= di < base && s == (if 2 * nl >= base then 1 else 0)
    ensures 0 <= nl + s * (d - base) < base && 0 <= di * (nh + s) + (nl + s * (d - base)) < base * base
    ensures 0 <= di * (nh + s) && nh + s < base
  {
    Product(di, nh + s, base - 1, base - 1);
    assert (base - 1) * (base - 1) == base * base - 2 * base + 1;
  }

  /** ~q * d + n is base * d plus the remainder for the quotient q + 1. */
  lemma Complement(base: int, d: int, q: int, n: int)
    requires 0 < d < base && 0 <= n - q * d < 2 * d
    ensures (base - 1 - q) * d + n == base * d + (n - (q + 1) * d)
    ensures 0 <= base * d + (n - (q + 1) * d) < base * base
  {
    assert (base - 1 - q) * d == base * d - d - q * d;
    OneMore(q, d);
    Steeper(base - 1, d, base);
    assert (base - 1) * base == base * base - base;
    Steeper(base, 1, d);
  }

  lemma EstimateNotNegative(base: int, xh: int, xl: int, x: int)
    requires base > 0 && xh * base + xl == x && x >= 0 && 0 <= xl < base
    ensures xh >= 0
  {
    if xh < 0 { Steeper(-1, xh, base); }
  }

  /** The high word tells the sign of the remainder m: it is d or d - 1. */
  lemma SplitSign(base: int, d: int, m: int, xh: int, xl: int)
    requires 0 < d < base && -d <= m < d && 0 <= xl < base && xh * base + xl == base * d + m
    ensures xh == (if m >= 0 then d else d - 1) && xl == if m >= 0 then m else m + base
  {
    DivUnique(base * d + m, base, xh, xl);
    assert base * d + m == d * base + m == (d - 1) * base + (m + base);
    if m >= 0 { DivUnique(base * d + m, base, d, m); } else { DivUnique(base * d + m, base, d - 1, m + base); }
  }

  /** The first half of udiv_qrnnd_preinv2norm: the complement of an estimate that is at most 1 too low. */
  method EstimateQuotient(k: nat, nh: int, nl: int, d: int, di: int) returns (q1: int, ghost e: int)
    requires k >= 1 && IsWord(k, nl) && Normalized(k, d) && 0 <= nh < d && di == Reciprocal(k, d)
    ensures 0 <= e < Base(k) && q1 == Not(k, e) && 0 <= Double(k, nh, nl) - e * d < 2 * d
            && e <= Double(k, nh, nl) / d <= e + 1
  {
    hide Base, Wrap, Reciprocal, Lack;
    ghost var base := Base(k);
    ghost var s := if 2 * nl >= base then 1 else 0;
    ReciprocalClose(k, d);
    AdjustedSum(base, d, di, nh, nl, s);
    var n2, n10 := nh, nl;
    var n1 := SignMask(k, n10);
    WrapIs(k, n10 + Masked(k, d, n1), s, nl + s * (d - base));
    var nadj := Wrap(k, n10 + Masked(k, d, n1));
    WrapIs(k, n2 - n1, -s, nh + s);
    var xh, xl := UmulPpmm(k, di, Wrap(k, n2 - n1));
    SmallMod(di * (nh + s) + (nl + s * (d - base)), base * base);
    xh, xl := AddSsaaaa(k, xh, xl, 0, nadj);
    EstimateNotNegative(base, xh, xl, di * (nh + s) + (nl + s * (d - base)));
    AdjustedEstimate(base, d, di, nh, nl, s, xh, xl);
    EstimateWord(base, d, nh, nl, n2 + xh);
    WrapIs(k, n2 + xh, 0, n2 + xh);
    e := n2 + xh;
    q1 := Not(k, Wrap(k, n2 + xh));
  }

  /** The second half: the sign of the remainder, in a word of ones or zeros, decides between the two quotients. */
  method ChooseQuotient(k: nat, nh: int, nl: int, d: int, q1: int, ghost e: int) returns (q: int, r: int)
    requires k >= 1 && IsWord(k, nl) && Normalized(k, d) && 0 <= nh < d
    requires 0 <= e < Base(k) && q1 == Not(k, e) && 0 <= Double(k, nh, nl) - e * d < 2 * d
             && e <= Double(k, nh, nl) / d <= e + 1
    ensures q == Double(k, nh, nl) / d && r == Double(k, nh, nl) % d && IsWord(k, q)
  {
    hide Base, Wrap;
    ghost var base, n := Base(k), Double(k, nh, nl);
    var xh, xl := UmulPpmm(k, q1, d);
    Complement(base, d, e, n);
    SmallMod(base * d + (n - (e + 1) * d), base * base);
    xh, xl := AddSsaaaa(k, xh, xl, nh, nl);
    ghost var m := n - (e + 1) * d;
    OneMore(e, d);
    SplitSign(base, d, m, xh, xl);
    WrapIs(k, xh - d, if m >= 0 then 0 else -1, if m >= 0 then 0 else base - 1);
    xh := Wrap(k, xh - d);
    WrapIs(k, xl + Masked(k, d, xh), if m >= 0 then 0 else 1, if m >= 0 then m else m + d);
    r := Wrap(k, xl + Masked(k, d, xh));
    if m >= 0 { EstimateWord(base, d, nh, nl, e + 1); }
    WrapIs(k, xh - q1, if m >= 0 then -1 else 0, if m >= 0 then e + 1 else e);
    q := Wrap(k, xh - q1);
    DivUnique(n, d, q, r);
  }

  /** udiv_qrnnd_preinv2norm: the same division without branches. */
  method UdivQrnndPreinv2Norm(k: nat, nh: int, nl: int, d: int, di: int) returns (q: int, r: int)
    requires k >= 1 && IsWord(k, nl) && Normalized(k, d) && 0 <= nh < d && di == Reciprocal(k, d)
    ensures q == Double(k, nh, nl) / d && r == Double(k, nh, nl) % d && IsWord(k, q)
  {
    ghost var e;
    var q1;
    q1, e := EstimateQuotient(k, nh, nl, d, di);
    q, r := ChooseQuotient(k, nh, nl, d, q1, e);
  }
}
