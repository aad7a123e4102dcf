/** Double-word arithmetic on words of 2 * k bits (gmp, longlong.h): the C macros that are used where no assembler
    code is given. Every assignment to a word keeps the value modulo the base. */
module LongLong {
  function Power2(k: nat): (p: nat)
    ensures p >= 1
  {
    if k == 0 then 1 else 2 * Power2(k - 1)
  }

  /** __ll_B: one more than the largest half word. */
  function HalfBase(k: nat): (b: nat)
    requires k >= 1
    ensures b >= 2 && b % 2 == 0
  {
    Power2(k)
  }

  /** One more than the largest word. */
  function Base(k: nat): (base: nat)
    requires k >= 1
    ensures base >= 4 && base % 2 == 0
  {
    var b := HalfBase(k);
    EvenSquare(b, b / 2);
    b * b
  }

  lemma EvenSquare(b: nat, h: nat)
    requires b == 2 * h && h >= 1
    ensures b * b == 2 * (h * b) && h * b >= 2
  {}

  predicate IsWord(k: nat, x: int)
    requires k >= 1
  {
    0 <= x < Base(k)
  }

  /** The value assigned to a word. */
  function Wrap(k: nat, x: int): (w: int)
    requires k >= 1
    ensures IsWord(k, w)
  {
    x % Base(k)
  }

  lemma {:induction false} WrapIs(k: nat, x: int, q: int, w: int)
    requires k >= 1 && x == q * Base(k) + w && IsWord(k, w)
    ensures Wrap(k, x) == w
  {
    DivUnique(x, Base(k), q, w);
  }

  /** There is one quotient and one remainder. */
  lemma DivUnique(n: int, d: int, q: int, r: int)
    requires d > 0 && n == q * d + r && 0 <= r < d
    ensures q == n / d && r == n % d
  {
    var q', r' := n / d, n % d;
    assert n == q' * d + r';
    assert (q - q') * d == r' - r;
    if q - q' >= 1 { Steeper(q - q', 1, d); }
    if q - q' <= -1 { Steeper(-1, q - q', d); }
  }

  lemma Steeper(x: int, y: int, d: int)
    requires x >= y && d >= 0
    ensures x * d >= y * d
  {}

  lemma Product(x: int, y: int, mx: int, my: int)
    requires 0 <= x <= mx && 0 <= y <= my
    ensures 0 <= x * y <= mx * my
  {
    Steeper(x, 0, y);
    Steeper(mx, x, y);
    Steeper(my, y, mx);
  }

  // ----- halves

  function Low(k: nat, x: int): int
    requires k >= 1
  {
    x % HalfBase(k)
  }

  function High(k: nat, x: int): int
    requires k >= 1
  {
    x / HalfBase(k)
  }

  lemma Halves(k: nat, x: int)
    requires k >= 1 && IsWord(k, x)
    ensures 0 <= Low(k, x) < HalfBase(k) && 0 <= High(k, x) < HalfBase(k)
    ensures x == High(k, x) * HalfBase(k) + Low(k, x)
  {
    var b, h := HalfBase(k), High(k, x);
    if h < 0 { Steeper(-1, h, b); }
    if h >= b { Steeper(h, b, b); }
  }

  // ----- addition and subtraction

  /** The value of a double word. */
  function Double(k: nat, h: int, l: int): int
    requires k >= 1
  {
    h * Base(k) + l
  }

  lemma DoubleFits(k: nat, h: int, l: int)
    requires k >= 1 && IsWord(k, h) && IsWord(k, l)
    ensures 0 <= Double(k, h, l) < Base(k) * Base(k)
  {
    var base := Base(k);
    Steeper(base - 1, h, base);
    Steeper(h, 0, base);
    assert (base - 1) * base == base * base - base;
  }

  /** add_ssaaaa: the sum of two double words, modulo the double base. */
  method AddSsaaaa(k: nat, ah: int, al: int, bh: int, bl: int) returns (sh: int, sl: int)
    requires k >= 1 && IsWord(k, ah) && IsWord(k, al) && IsWord(k, bh) && IsWord(k, bl)
    ensures IsWord(k, sh) && IsWord(k, sl)
    ensures Double(k, sh, sl) == (Double(k, ah, al) + Double(k, bh, bl)) % (Base(k) * Base(k))
  {
    hide Base, Wrap;
    var x := Wrap(k, al + bl);
    sh := Wrap(k, ah + bh + if x < al then 1 else 0);
    sl := x;
    ghost var base := Base(k);
    ghost var c0 := if al + bl >= base then 1 else 0;
    WrapIs(k, al + bl, c0, al + bl - c0 * base);
    ghost var c1 := if ah + bh + c0 >= base then 1 else 0;
    WrapIs(k, ah + bh + c0, c1, ah + bh + c0 - c1 * base);
    CarriedSum(base, ah, al, bh, bl, c0, c1);
    DoubleFits(k, sh, sl);
    DivUnique(Double(k, ah, al) + Double(k, bh, bl), base * base, c1, Double(k, sh, sl));
  }

  lemma Carry(base: int, s: int, t: int, c: int)
    requires s == t - c * base
    ensures s * base == t * base - c * (base * base)
  {}

  /** A sum of double words with the carries c0 and c1. */
  lemma CarriedSum(base: int, ah: int, al: int, bh: int, bl: int, c0: int, c1: int)
    ensures (ah + bh + c0 - c1 * base) * base + (al + bl - c0 * base) + c1 * (base * base) == ah * base
            + al + (bh * base + bl)
  {
    Distribute(ah, bh, c0, base);
    Carry(base, ah + bh + c0 - c1 * base, ah + bh + c0, c1);
  }

  lemma Distribute(x: int, y: int, z: int, d: int)
    ensures (x + y + z) * d == x * d + y * d + z * d
  {}

  /** sub_ddmmss: the difference of two double words, modulo the double base. */
  method SubDdmmss(k: nat, ah: int, al: int, bh: int, bl: int) returns (sh: int, sl: int)
    requires k >= 1 && IsWord(k, ah) && IsWord(k, al) && IsWord(k, bh) && IsWord(k, bl)
    ensures IsWord(k, sh) && IsWord(k, sl)
    ensures Double(k, sh, sl) == (Double(k, ah, al) - Double(k, bh, bl)) % (Base(k) * Base(k))
  {
    hide Base, Wrap;
    var x := Wrap(k, al - bl);
    sh := Wrap(k, ah - bh - if x > al then 1 else 0);
    sl := x;
    ghost var base := Base(k);
    ghost var c0: int := if al < bl then 1 else 0;
    WrapIs(k, al - bl, -c0, al - bl + c0 * base);
    ghost var c1: int := if ah - bh - c0 < 0 then 1 else 0;
    WrapIs(k, ah - bh - c0, -c1, ah - bh - c0 + c1 * base);
    CarriedSum(base, ah, al, -bh, -bl, -c0, -c1);
    assert (-bh) * base == -(bh * base);
    DoubleFits(k, sh, sl);
    DivUnique(Double(k, ah, al) - Double(k, bh, bl), base * base, -c1, Double(k, sh, sl));
  }

  // ----- multiplication

  lemma HalfProduct(k: nat, x: int, y: int)
    requires k >= 1 && 0 <= x < HalfBase(k) && 0 <= y < HalfBase(k)
    ensures 0 <= x * y <= Base(k) - 2 * HalfBase(k) + 1 && Wrap(k, x * y) == x * y
  {
    var b := HalfBase(k);
    Product(x, y, b - 1, b - 1);
    assert (b - 1) * (b - 1) == b * b - 2 * b + 1;
    WrapIs(k, x * y, 0, x * y);
  }

  /** A product of words from the products of their halves. */
  lemma FourProducts(b: int, uh: int, ul: int, vh: int, vl: int)
    ensures (uh * b + ul) * (vh * b + vl) == uh * vh * (b * b) + (ul * vh + uh * vl) * b + ul * vl
  {
    var u, p := uh * b + ul, vh * b;
    assert u * (p + vl) == u * p + u * vl;
    assert u * p == (uh * b) * (vh * b) + ul * (vh * b);
    assert (uh * b) * (vh * b) == uh * vh * (b * b);
    assert ul * (vh * b) == (ul * vh) * b;
    assert u * vl == (uh * b) * vl + ul * vl;
    assert (uh * b) * vl == (uh * vl) * b;
    assert (ul * vh + uh * vl) * b == (ul * vh) * b + (uh * vl) * b;
  }

  /** The two words of a product: cross is the sum of the middle products and the carry c * b * b belongs to the high
      word. */
  lemma Gathered(b: int, low: int, cross: int, high: int, x0h: int, x0l: int, x1h: int, x1l: int, c: int)
    requires low == x0h * b + x0l && cross + x0h == x1h * b + x1l + c * (b * b)
    ensures high * (b * b) + cross * b + low == (high + c * b + x1h) * (b * b) + (x1l * b + x0l)
  {
    assert (cross + x0h) * b == cross * b + x0h * b;
    assert (x1h * b + x1l + c * (b * b)) * b == x1h * b * b + x1l * b + c * (b * b) * b;
    assert c * (b * b) * b == (c * b) * (b * b);
    assert x1h * b * b == x1h * (b * b);
    assert (high + c * b + x1h) * (b * b) == high * (b * b) + (c * b) * (b * b) + x1h * (b * b);
  }

  /** The high word of a product fits. */
  lemma HighFits(base: int, u: int, v: int, w1: int, w0: int)
    requires 0 <= u < base && 0 <= v < base && w1 * base + w0 == u * v && 0 <= w0 < base
    ensures 0 <= w1 < base
  {
    Product(u, v, base - 1, base - 1);
    assert (base - 1) * (base - 1) == base * base - 2 * base + 1;
    if w1 >= base { Steeper(w1, base, base); }
    if w1 < 0 { Steeper(-1, w1, base); }
  }

  lemma TwoHalves(k: nat, h: int, l: int)
    requires k >= 1 && 0 <= h < HalfBase(k) && 0 <= l < HalfBase(k)
    ensures 0 <= h * HalfBase(k) + l < Base(k)
  {
    Product(h, HalfBase(k), HalfBase(k) - 1, HalfBase(k));
    Distribute(HalfBase(k), -1, 0, HalfBase(k));
  }

  /** umul_ppmm: the exact product of two words, from four products of half words. */
  method UmulPpmm(k: nat, u: int, v: int) returns (w1: int, w0: int)
    requires k >= 1 && IsWord(k, u) && IsWord(k, v)
    ensures IsWord(k, w1) && IsWord(k, w0) && Double(k, w1, w0) == u * v
  {
    hide HalfBase, Base, Wrap, Low, High;
    ghost var b, base := HalfBase(k), Base(k);
    var ul, uh, vl, vh := Low(k, u), High(k, u), Low(k, v), High(k, v);
    Halves(k, u);
    Halves(k, v);
    HalfProduct(k, ul, vl);
    HalfProduct(k, ul, vh);
    HalfProduct(k, uh, vl);
    HalfProduct(k, uh, vh);
    var x0, x1, x2, x3 := Wrap(k, ul * vl), Wrap(k, ul * vh), Wrap(k, uh * vl), Wrap(k, uh * vh);
    Halves(k, x0);
    WrapIs(k, x1 + High(k, x0), 0, x1 + High(k, x0));
    x1 := Wrap(k, x1 + High(k, x0));
    ghost var c := if x1 + x2 >= base then 1 else 0;
    WrapIs(k, x1 + x2, c, x1 + x2 - c * base);
    x1 := Wrap(k, x1 + x2);
    Halves(k, x1);
    FourProducts(b, uh, ul, vh, vl);
    Squared(k);
    Gathered(b, x0, ul * vh + uh * vl, x3, High(k, x0), Low(k, x0), High(k, x1), Low(k, x1), c);
    TwoHalves(k, Low(k, x1), Low(k, x0));
    HighFits(base, u, v, x3 + c * b + High(k, x1), Low(k, x1) * b + Low(k, x0));
    if x1 < x2 {
      WrapIs(k, x3 + b, 0, x3 + b);
      x3 := Wrap(k, x3 + HalfBase(k));
    }
    WrapIs(k, x3 + High(k, x1), 0, x3 + High(k, x1));
    w1 := Wrap(k, x3 + High(k, x1));
    WrapIs(k, Low(k, x1) * b + Low(k, x0), 0, Low(k, x1) * b + Low(k, x0));
    w0 := Wrap(k, Low(k, x1) * HalfBase(k) + Low(k, x0));
  }

  lemma Squared(k: nat)
    requires k >= 1
    ensures Base(k) == HalfBase(k) * HalfBase(k)
  {}

  // ----- division by a normalized word

  /** The top bit of d is set. */
  predicate Normalized(k: nat, d: int)
    requires k >= 1
  {
    IsWord(k, d) && 2 * d >= Base(k)
  }

  /** An or of two numbers without common bits. */
  function Or(k: nat, x: int, y: int): (r: int)
    requires k >= 1 && x % HalfBase(k) == 0 && 0 <= y < HalfBase(k)
  {
    x + y
  }

  lemma DigitIdentity(b: int, d1: int, d0: int, r: int, x: int, q: int, r1: int)
    requires r == q * d1 + r1
    ensures r * b + x - q * (d1 * b + d0) == r1 * b + x - q * d0
  {
    assert r * b == (q * d1) * b + r1 * b;
    assert q * (d1 * b + d0) == q * (d1 * b) + q * d0;
    assert q * (d1 * b) == (q * d1) * b;
  }

  lemma DigitSmall(b: int, d1: int, d0: int, r: int, q: int, r1: int)
    requires 0 <= d0 < b && 1 <= d1 && b <= 2 * d1
    requires 0 <= r < d1 * b + d0 && r == q * d1 + r1 && 0 <= r1 < d1
    ensures 0 <= q <= b + 1
  {
    if q < 0 { Steeper(-1, q, d1); }
    assert (b + 2) * d1 == d1 * b + 2 * d1;
    if q >= b + 2 { Steeper(q, b + 2, d1); }
  }

  lemma DigitBounds(b: int, d1: int, d0: int, x: int, q: int, r1: int)
    requires 0 <= d0 < b && 0 <= x < b && 0 <= r1 < d1 && 0 <= q <= b + 1
    ensures 0 <= q * d0 < b * b && 0 <= r1 * b + x < d1 * b
  {
    Product(q, d0, b + 1, b - 1);
    assert (b + 1) * (b - 1) == b * b - 1;
    Steeper(d1 - 1, r1, b);
    assert (d1 - 1) * b == d1 * b - b;
    Steeper(r1, 0, b);
  }

  /** The quotient digit r / d1 is at most two too large. */
  lemma DigitEstimate(b: int, d1: int, d0: int, r: int, x: int, q: int, r1: int)
    requires 0 <= d0 < b && 0 <= x < b && 1 <= d1 && b <= 2 * d1 && 2 * (d1 * b + d0) >= b * b
    requires 0 <= r < d1 * b + d0 && r == q * d1 + r1 && 0 <= r1 < d1
    ensures r * b + x - q * (d1 * b + d0) == r1 * b + x - q * d0
    ensures -2 * (d1 * b + d0) <= r1 * b + x - q * d0 < d1 * b + d0 && 0 <= r1 * b + x < d1 * b + d0
    ensures 0 <= q <= b + 1 && 0 <= q * d0 < b * b
  {
    DigitIdentity(b, d1, d0, r, x, q, r1);
    DigitSmall(b, d1, d0, r, q, r1);
    DigitBounds(b, d1, d0, x, q, r1);
  }

  lemma HighDigit(k: nat, d: int)
    requires k >= 1 && Normalized(k, d)
    ensures 1 <= High(k, d) < HalfBase(k) && HalfBase(k) <= 2 * High(k, d) && 0 <= Low(k, d) < HalfBase(k)
    ensures d == High(k, d) * HalfBase(k) + Low(k, d)
  {
    Halves(k, d);
    HalfTop(HalfBase(k), High(k, d), Low(k, d));
  }

  lemma HalfTop(b: int, h: int, l: int)
    requires b >= 2 && b % 2 == 0 && l < b && 2 * (h * b + l) >= b * b
    ensures b <= 2 * h
  {
    assert 2 * h * b == 2 * (h * b);
    assert (b - 2) * b == b * b - 2 * b;
    if 2 * h < b { Steeper(b - 2, 2 * h, b); }
  }

  /** Adding d to a word either does not wrap or gives a word below d. */
  lemma AddWraps(k: nat, r: int, d: int)
    requires k >= 1 && IsWord(k, r) && IsWord(k, d)
    ensures Wrap(k, r + d) == if r + d < Base(k) then r + d else r + d - Base(k)
  {
    var c := if r + d < Base(k) then 0 else 1;
    WrapIs(k, r + d, c, r + d - c * Base(k));
  }

  lemma HalfMultiple(r: int, b: int)
    requires b > 0
    ensures (r * b) % b == 0
  {
    DivUnique(r * b, b, r, 0);
  }

  lemma OneLess(q: int, d: int)
    ensures (q - 1) * d == q * d - d
  {}

  /** A quotient of a number below d * b is a half word. */
  lemma DigitFits(b: int, d: int, r: int, x: int, q: int, rest: int)
    requires 0 <= r < d && 0 <= x < b && r * b + x == q * d + rest && 0 <= rest < d
    ensures 0 <= q < b
  {
    Steeper(d - 1, r, b);
    assert (d - 1) * b == d * b - b;
    Steeper(r, 0, b);
    if q < 0 { Steeper(-1, q, d); }
    if q >= b { Steeper(q, b, d); }
  }

  /** One quotient digit of __udiv_qrnnd_c: the remainder r and the half word x, divided by d. The steps wrap, the
      result is exact. */
  method DivideDigit(k: nat, r: int, x: int, d: int) returns (q: int, rest: int)
    requires k >= 1 && Normalized(k, d) && 0 <= r < d && 0 <= x < HalfBase(k)
    ensures r * HalfBase(k) + x == q * d + rest && 0 <= rest < d && 0 <= q < HalfBase(k)
  {
    hide HalfBase, Base, Wrap, Low, High;
    ghost var b, base := HalfBase(k), Base(k);
    var d1, d0 := High(k, d), Low(k, d);
    HighDigit(k, d);
    Squared(k);
    var r1;
    r1, q := r % d1, r / d1;
    DigitEstimate(b, d1, d0, r, x, q, r1);
    WrapIs(k, q * d0, 0, q * d0);
    var m := Wrap(k, q * d0);
    TwoHalves(k, r1, 0);
    WrapIs(k, r1 * b, 0, r1 * b);
    HalfMultiple(r1, b);
    // the exact value of the remainder before it wraps
    ghost var exact := r1 * b + x;
    r1 := Or(k, Wrap(k, r1 * HalfBase(k)), x);
    OneLess(q, d);
    OneLess(q - 1, d);
    if r1 < m {
      q := q - 1;
      AddWraps(k, r1, d);
      r1 := Wrap(k, r1 + d);
      exact := exact + d;
      if r1 >= d {
        if r1 < m {
          q := q - 1;
          AddWraps(k, r1, d);
          r1 := Wrap(k, r1 + d);
          exact := exact + d;
        }
      }
    }
    WrapIs(k, r1 - m, if r1 == exact then 0 else -1, exact - m);
    rest := Wrap(k, r1 - m);
    DigitFits(b, d, r, x, q, rest);
  }

  lemma TwoDigits(b: int, n1: int, h: int, l: int, d: int, q1: int, r1: int, q0: int, r0: int)
    requires n1 * b + h == q1 * d + r1 && r1 * b + l == q0 * d + r0
    ensures n1 * (b * b) + (h * b + l) == (q1 * b + q0) * d + r0
  {
    assert (n1 * b + h) * b == n1 * (b * b) + h * b;
    assert (q1 * d + r1) * b == (q1 * b) * d + r1 * b;
    assert (q1 * b + q0) * d == (q1 * b) * d + q0 * d;
  }

  /** __udiv_qrnnd_c: the double word n1, n0 divided by a normalized word, one half word at a time. */
  method UdivQrnndC(k: nat, n1: int, n0: int, d: int) returns (q: int, r: int)
    requires k >= 1 && IsWord(k, n1) && IsWord(k, n0) && Normalized(k, d) && n1 < d
    ensures q == Double(k, n1, n0) / d && r == Double(k, n1, n0) % d && IsWord(k, q)
  {
    hide HalfBase, Base, Wrap, Low, High;
    Halves(k, n0);
    Squared(k);
    var q1, r1 := DivideDigit(k, n1, High(k, n0), d);
    var q0, r0 := DivideDigit(k, r1, Low(k, n0), d);
    TwoDigits(HalfBase(k), n1, High(k, n0), Low(k, n0), d, q1, r1, q0, r0);
    TwoHalves(k, q1, 0);
    TwoHalves(k, q1, q0);
    WrapIs(k, q1 * HalfBase(k), 0, q1 * HalfBase(k));
    HalfMultiple(q1, HalfBase(k));
    q := Or(k, Wrap(k, q1 * HalfBase(k)), q0);
    r := r0;
    DivUnique(n1 * Base(k) + n0, d, q, r);
  }
}
