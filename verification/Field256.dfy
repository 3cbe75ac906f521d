/** The field with 256 elements: binary polynomials modulo x^8 + x^4 + x^3 + x^2 + 1. */
module Field256 {
  import opened Arithmetic
  import opened Bits

  const GF_POLY := 0x11d

  // ----- multiplication by x, and by an arbitrary polynomial

  /** x * v: a left shift, folded back by the polynomial when bit 8 is set. */
  function Xtime(v: byte): (r: byte)
    ensures r == 0 <==> v == 0
  {
    var d := 2 * v;
    if d >= 256 then
      assert Pow2(8) == 256;
      XorHigh(d - 256, GF_POLY - 256, 8);
      XorBelow(d - 256, GF_POLY - 256, 8);
      XorZero(d, GF_POLY);
      Xor(d, GF_POLY)
    else d
  }

  lemma XtimeXor(a: byte, b: byte)
    ensures Xtime(BXor(a, b)) == BXor(Xtime(a), Xtime(b))
  {
    var fa, fb := if a >= 128 then GF_POLY else 0, if b >= 128 then GF_POLY else 0;
    XorId(2 * a);
    XorId(2 * b);
    XorId(2 * BXor(a, b));
    XorSwap(2 * a, fa, 2 * b, fb);
    XorDouble(a, b);
    assert Pow2(7) == 128;
    XorTop(a, b, 7);
    XorSelf(GF_POLY);
    XorId(GF_POLY);
    XorComm(0, GF_POLY);
  }

  lemma XtimeInjective(a: byte, b: byte)
    requires Xtime(a) == Xtime(b)
    ensures a == b
  {
    XtimeXor(a, b);
    XorZero(Xtime(a), Xtime(b));
    XorZero(a, b);
  }

  function XtimeN(n: nat, v: byte): byte {
    if n == 0 then v else Xtime(XtimeN(n - 1, v))
  }

  /** The n-th power of the generator g = x = 2. */
  function GPow(n: nat): byte {
    XtimeN(n, 1)
  }

  /** Product of two binary polynomials, before any reduction. */
  function ClMul(a: nat, b: nat): nat {
    if a == 0 then 0 else Xor(if a % 2 == 1 then b else 0, 2 * ClMul(a / 2, b))
  }

  /** Product in the field, reducing after every shift. */
  function Times(a: byte, b: byte): byte
    decreases a
  {
    if a == 0 then 0 else BXor(if a % 2 == 1 then b else 0, Xtime(Times(a / 2, b)))
  }

  lemma XtimeIsRemainder(v: byte)
    ensures 2 * v == Xor(ClMul(if v >= 128 then 1 else 0, GF_POLY), Xtime(v))
  {
    if v >= 128 {
      assert ClMul(0, GF_POLY) == 0;
      XorId(GF_POLY);
      assert ClMul(1, GF_POLY) == GF_POLY;
      XorComm(2 * v, GF_POLY);
      XorCancel(GF_POLY, 2 * v);
    } else {
      XorId(2 * v);
      XorComm(0, 2 * v);
    }
  }

  lemma {:induction false} ClMulXor(q: nat, r: nat, b: nat)
    ensures ClMul(Xor(q, r), b) == Xor(ClMul(q, b), ClMul(r, b))
    decreases q + r
  {
    XorId(ClMul(q, b));
    XorId(q);
    XorComm(0, ClMul(r, b));
    XorId(ClMul(r, b));
    XorId(r);
    XorComm(0, r);
    if q != 0 && r != 0 {
      ClMulXor(q / 2, r / 2, b);
      XorStep(q, r);
      var qb, rb := if q % 2 == 1 then b else 0, if r % 2 == 1 then b else 0;
      XorSwap(qb, 2 * ClMul(q / 2, b), rb, 2 * ClMul(r / 2, b));
      XorDouble(ClMul(q / 2, b), ClMul(r / 2, b));
      XorSelf(b);
      XorId(b);
      XorComm(0, b);
      if Xor(q, r) == 0 {
        XorId(0);
      }
    }
  }

  /** `Times` is the remainder of the polynomial product: they differ by a multiple of the polynomial. */
  lemma {:induction false} TimesIsRemainder(a: byte, b: byte) returns (q: nat)
    ensures ClMul(a, b) == Xor(ClMul(q, GF_POLY), Times(a, b))
    decreases a
  {
    if a == 0 {
      q := 0;
    } else {
      var q0 := TimesIsRemainder(a / 2, b);
      var t := Times(a / 2, b);
      var fold := if t >= 128 then 1 else 0;
      q := Xor(2 * q0, fold);
      var low := if a % 2 == 1 then b else 0;
      XtimeIsRemainder(t);
      ClMulXor(2 * q0, fold, GF_POLY);
      ClMulDouble(q0, GF_POLY);
      XorDouble(ClMul(q0, GF_POLY), t);
      XorAssoc(2 * ClMul(q0, GF_POLY), ClMul(fold, GF_POLY), Xtime(t));
      var m := ClMul(q, GF_POLY);
      XorAssoc(low, m, Xtime(t));
      XorComm(low, m);
      XorAssoc(m, low, Xtime(t));
    }
  }

  lemma ClMulDouble(q: nat, b: nat)
    ensures ClMul(2 * q, b) == 2 * ClMul(q, b)
  {
    XorId(2 * ClMul(q, b));
    XorComm(0, 2 * ClMul(q, b));
  }

  lemma {:induction false} TimesXtime(a: byte, b: byte)
    ensures Times(a, Xtime(b)) == Xtime(Times(a, b))
    decreases a
  {
    if a != 0 {
      TimesXtime(a / 2, b);
      XtimeXor(if a % 2 == 1 then b else 0, Xtime(Times(a / 2, b)));
    }
  }

  lemma {:induction false} TimesOne(a: byte)
    ensures Times(a, 1) == a && Times(1, a) == a
    decreases a
  {
    XorId(a);
    if a != 0 {
      TimesOne(a / 2);
      OddBit(a);
    }
  }

  lemma OddBit(a: nat)
    ensures Xor(a % 2, 2 * (a / 2)) == a
  {
    hide *;
    XorStep(a % 2, 2 * (a / 2));
    XorComm(0, a / 2);
    XorId(a / 2);
  }

  lemma {:induction false} TimesXor(a: byte, b: byte, c: byte)
    ensures Times(a, BXor(b, c)) == BXor(Times(a, b), Times(a, c))
    decreases a
  {
    XorSelf(0);
    if a != 0 {
      TimesXor(a / 2, b, c);
      XtimeXor(Times(a / 2, b), Times(a / 2, c));
      var on := a % 2 == 1;
      XorSwap(if on then b else 0, Xtime(Times(a / 2, b)), if on then c else 0, Xtime(Times(a / 2, c)));
    }
  }

  lemma {:induction false} XtimeNAdd(m: nat, n: nat, v: byte)
    ensures XtimeN(m + n, v) == XtimeN(m, XtimeN(n, v))
  {
    if m != 0 {
      XtimeNAdd(m - 1, n, v);
    }
  }

  lemma {:induction false} XtimeNInjective(n: nat, a: byte, b: byte)
    requires XtimeN(n, a) == XtimeN(n, b)
    ensures a == b
  {
    if n != 0 {
      XtimeInjective(XtimeN(n - 1, a), XtimeN(n - 1, b));
      XtimeNInjective(n - 1, a, b);
    }
  }

  lemma {:induction false} TimesGPow(a: byte, n: nat)
    ensures Times(a, GPow(n)) == XtimeN(n, a)
  {
    TimesOne(a);
    if n != 0 {
      TimesGPow(a, n - 1);
      TimesXtime(a, GPow(n - 1));
    }
  }

  /** Powers of the generator multiply by adding exponents. */
  lemma GPowAdd(m: nat, n: nat)
    ensures GPow(m + n) == Times(GPow(m), GPow(n))
  {
    TimesGPow(GPow(m), n);
    XtimeNAdd(n, m, 1);
  }

  // ----- the generator has order exactly 255

  /** `Xtime` on bit-vectors, where the solver can run it many times over. */
  function Shl(v: bv8): bv8 {
    if v & 0x80 != 0 then (v << 1) ^ 0x1d else v << 1
  }

  function Shl4(v: bv8): bv8 {
    Shl(Shl(Shl(Shl(v))))
  }

  function Shl16(v: bv8): bv8 {
    Shl4(Shl4(Shl4(Shl4(v))))
  }

  function Shl64(v: bv8): bv8 {
    Shl16(Shl16(Shl16(Shl16(v))))
  }

  /** Exclusive or with 7 complements the three low bits. */
  function Flip3(x: int): int {
    x + (if x % 2 < 1 then 1 else -1) + (if x % 4 < 2 then 2 else -2) + (if x % 8 < 4 then 4 else -4)
  }

  /** `Xtime` in plain arithmetic: the fold by 0x11d flips bits 4, 3, 2 and 0 of the shifted byte. */
  function Doubled(v: int): int {
    if v < 128 then 2 * v
    else (2 * v - 255
          + (if v % 4 < 2 then 4 else -4) + (if v % 8 < 4 then 8 else -8) + (if v % 16 < 8 then 16 else -16))
  }

  lemma ShlIsDoubled(v: bv8)
    ensures Shl(v) as int == Doubled(v as int)
  {}

  lemma XorThree(x: nat)
    ensures Xor(x, 3) == x + (if x % 2 < 1 then 1 else -1) + (if x % 4 < 2 then 2 else -2)
  {
    XorId(x / 4);
    assert Xor(x, 3) == 2 * Xor(x / 2, 1) + 1 - x % 2;
    assert Xor(x / 2, 1) == 2 * Xor(x / 4, 0) + 1 - x / 2 % 2;
  }

  lemma XorSeven(x: nat)
    ensures Xor(x, 7) == Flip3(x)
  {
    XorThree(x / 2);
    assert Xor(x, 7) == 2 * Xor(x / 2, 3) + 1 - x % 2;
    HalfMod(x);
  }

  /** The remainder of a half is the half of the remainder of twice the divisor. */
  lemma HalfRemainder(u: nat, d: nat, m: nat, k: nat, r: nat)
    requires m == 2 * d && r < m && u == m * k + r
    ensures u / 2 % d == r / 2
  {
    hide *;
    HalfOf(u, k, d, m, r);
    DivModUnique(k, d, r / 2);
  }

  lemma HalfOf(u: nat, k: nat, d: nat, m: nat, r: nat)
    requires m == 2 * d && u == m * k + r
    ensures u / 2 == k * d + r / 2
  {
    hide *;
    assert m * k == 2 * (k * d);
    Halves(u, k * d + r / 2, r % 2);
  }

  lemma HalfMod(u: nat)
    ensures u / 2 % 2 < 1 <==> u % 4 < 2
    ensures u / 2 % 4 < 2 <==> u % 8 < 4
  {
    hide *;
    HalfRemainder(u, 2, 4, u / 4, u % 4);
    HalfRemainder(u, 4, 8, u / 8, u % 8);
  }

  lemma HalfMod8(u: nat)
    ensures u / 2 % 8 < 4 <==> u % 16 < 8
  {
    hide *;
    HalfRemainder(u, 8, 16, u / 16, u % 16);
  }

  lemma Xor29(u: nat)
    ensures Xor(2 * u, 29) == 4 * Xor(u / 2, 7) + 2 * (u % 2) + 1
  {
    assert Xor(2 * u, 29) == 2 * Xor(u, 14) + 1;
  }

  lemma XtimeFold(u: nat)
    requires u < 128
    ensures Xtime(u + 128) == Xor(2 * u, 29)
  {
    assert Pow2(8) == 256;
    XorHigh(2 * u, 29, 8);
  }

  lemma DoubledFold(u: nat)
    requires u < 128
    ensures Doubled(u + 128) == 4 * Flip3(u / 2) + 2 * (u % 2) + 1
  {
    HalfMod(u);
    HalfMod8(u);
    ModShift(u);
  }

  lemma ModShift(u: int)
    ensures (u + 128) % 4 == u % 4 && (u + 128) % 8 == u % 8 && (u + 128) % 16 == u % 16
  {
    hide *;
    ModShift4(u);
    ModShift8(u);
    ModShift16(u);
  }

  lemma ModShift4(u: int)
    ensures (u + 128) % 4 == u % 4
  {}

  lemma ModShift8(u: int)
    ensures (u + 128) % 8 == u % 8
  {}

  lemma ModShift16(u: int)
    ensures (u + 128) % 16 == u % 16
  {}

  lemma DoubledIsXtime(v: byte)
    ensures Doubled(v) == Xtime(v)
  {
    if v >= 128 {
      XtimeFold(v - 128);
      Xor29(v - 128);
      XorSeven((v - 128) / 2);
      DoubledFold(v - 128);
    }
  }

  lemma ShlStep(n: nat, v: byte, w: bv8)
    requires XtimeN(n, v) == w as int
    ensures XtimeN(n + 1, v) == Shl(w) as int
  {
    ShlIsDoubled(w);
    DoubledIsXtime(w as int);
  }

  lemma Shl4IsXtime4(v: bv8)
    ensures Shl4(v) as int == XtimeN(4, v as int)
  {
    ShlStep(0, v as int, v);
    ShlStep(1, v as int, Shl(v));
    ShlStep(2, v as int, Shl(Shl(v)));
    ShlStep(3, v as int, Shl(Shl(Shl(v))));
  }

  lemma Shl16IsXtime16(v: bv8)
    ensures Shl16(v) as int == XtimeN(16, v as int)
  {
    var a, b, c := Shl4(v), Shl4(Shl4(v)), Shl4(Shl4(Shl4(v)));
    Shl4IsXtime4(v);
    Shl4IsXtime4(a);
    Shl4IsXtime4(b);
    Shl4IsXtime4(c);
    XtimeNAdd(4, 4, v as int);
    XtimeNAdd(4, 8, v as int);
    XtimeNAdd(4, 12, v as int);
  }

  lemma Shl64IsXtime64(v: bv8)
    ensures Shl64(v) as int == XtimeN(64, v as int)
  {
    var a, b, c := Shl16(v), Shl16(Shl16(v)), Shl16(Shl16(Shl16(v)));
    Shl16IsXtime16(v);
    Shl16IsXtime16(a);
    Shl16IsXtime16(b);
    Shl16IsXtime16(c);
    XtimeNAdd(16, 16, v as int);
    XtimeNAdd(16, 32, v as int);
    XtimeNAdd(16, 48, v as int);
  }

  lemma Leap4(n: nat, v: bv8, w: bv8)
    requires GPow(n) == v as int && w == Shl4(v)
    ensures GPow(n + 4) == w as int
  {
    Shl4IsXtime4(v);
    XtimeNAdd(4, n, 1);
  }

  lemma Leap16(n: nat, v: bv8, w: bv8)
    requires GPow(n) == v as int && w == Shl16(v)
    ensures GPow(n + 16) == w as int
  {
    Shl16IsXtime16(v);
    XtimeNAdd(16, n, 1);
  }

  lemma Leap64(n: nat, v: bv8, w: bv8)
    requires GPow(n) == v as int && w == Shl64(v)
    ensures GPow(n + 64) == w as int
  {
    Shl64IsXtime64(v);
    XtimeNAdd(64, n, 1);
  }

  lemma GeneratorPeriod()
    ensures GPow(255) == 1
  {
    Leap64(0, 1, 95);
    Leap64(64, 95, 133);
    Leap64(128, 133, 130);
    Leap64(192, 130, 2);
    XtimeInjective(XtimeN(255, 1), 1);
  }

  lemma Power15()
    ensures GPow(15) == 38
  {
    assert GPow(3) == 8;
    Leap4(3, 8, 128);
    Leap4(7, 128, 232);
    Leap4(11, 232, 38);
  }

  lemma Power51()
    ensures GPow(51) == 10
  {
    assert GPow(3) == 8;
    Leap16(3, 8, 90);
    Leap16(19, 90, 156);
    Leap16(35, 156, 10);
  }

  lemma Power85()
    ensures GPow(85) == 214
  {
    assert GPow(1) == 2;
    Leap4(1, 2, 32);
    Leap16(5, 32, 117);
    Leap64(21, 117, 214);
  }

  lemma {:induction false} PeriodMultiple(d: nat, k: nat, r: nat)
    requires GPow(d) == 1
    ensures GPow(d * k + r) == GPow(r)
  {
    hide XtimeN;
    if k != 0 {
      PeriodMultiple(d, k - 1, r);
      OneMorePeriod(d, k - 1, r);
      XtimeNAdd(d * (k - 1) + r, d, 1);
    }
  }

  lemma OneMorePeriod(d: nat, k: nat, r: nat)
    ensures d * k + r + d == d * (k + 1) + r
    ensures d * k + r >= 0
  {}

  lemma PeriodMod(d: nat, n: nat)
    requires d != 0 && GPow(d) == 1
    ensures GPow(n) == GPow(n % d)
  {
    var k, r := n / d, n % d;
    assert n == d * k + r;
    PeriodMultiple(d, k, r);
  }

  lemma Factors255(d: nat, k: nat)
    requires d * k == 255 && d < 255
    ensures 15 % d == 0 || 51 % d == 0 || 85 % d == 0
  {
    if d < 16 {
      assert d == 1 || d == 3 || d == 5 || d == 15;
    } else {
      assert k < 16;
      assert k == 3 || k == 5 || k == 15;
    }
  }

  lemma PeriodDivides(d: nat, m: nat)
    requires d != 0 && m % d == 0 && GPow(d) == 1
    ensures GPow(m) == 1
  {
    PeriodMod(d, m);
    assert GPow(0) == 1;
  }

  lemma ShortPeriod(d: nat)
    requires 0 < d < 255 && 255 % d == 0
    ensures GPow(d) != 1
  {
    Factors255(d, 255 / d);
    if GPow(d) == 1 {
      if 15 % d == 0 {
        PeriodDivides(d, 15);
        Power15();
      } else if 51 % d == 0 {
        PeriodDivides(d, 51);
        Power51();
      } else {
        PeriodDivides(d, 85);
        Power85();
      }
    }
  }

  lemma {:induction false} LeastPeriod(n: nat, d: nat)
    requires GPow(n) == 1
    requires forall m | 0 < m < n && n % m == 0 :: GPow(m) != 1
    requires 0 < d < n
    ensures GPow(d) != 1
    decreases d
  {
    if GPow(d) == 1 {
      PeriodMod(d, n);
      var r := n % d;
      if r != 0 {
        LeastPeriod(n, r);
      }
    }
  }

  /** No smaller power of the generator than the 255th is 1. */
  lemma GeneratorOrder(d: nat)
    requires 0 < d < 255
    ensures GPow(d) != 1
  {
    GeneratorPeriod();
    forall m | 0 < m < 255 && 255 % m == 0
      ensures GPow(m) != 1
    {
      ShortPeriod(m);
    }
    LeastPeriod(255, d);
  }

  lemma GPowDistinct(i: nat, j: nat)
    requires i < j < 255
    ensures GPow(i) != GPow(j)
  {
    if GPow(i) == GPow(j) {
      XtimeNAdd(i, j - i, 1);
      XtimeNInjective(i, 1, GPow(j - i));
      GeneratorOrder(j - i);
    }
  }

  lemma GPowMod(n: nat)
    ensures GPow(n) == GPow(n % 255)
  {
    GeneratorPeriod();
    PeriodMod(255, n);
  }

  lemma GPowPlusPeriod(n: nat)
    ensures GPow(n + 255) == GPow(n)
  {
    GeneratorPeriod();
    PeriodMultiple(255, 1, n);
  }

  lemma {:induction false} GPowNonzero(n: nat)
    ensures GPow(n) != 0
  {
    if n != 0 {
      GPowNonzero(n - 1);
    }
  }

  // ----- every nonzero byte is a power of the generator

  function PowersBelow(n: nat): set<int> {
    set i | 0 <= i < n :: GPow(i) as int
  }

  function OneTo(n: nat): (s: set<int>)
    ensures forall v :: v in s <==> 1 <= v <= n
  {
    if n == 0 then {} else OneTo(n - 1) + {n}
  }

  lemma {:induction false} PowersBelowSize(n: nat)
    requires n <= 255
    ensures |PowersBelow(n)| == n
  {
    if n != 0 {
      PowersBelowSize(n - 1);
      assert PowersBelow(n) == PowersBelow(n - 1) + {GPow(n - 1)};
      if GPow(n - 1) as int in PowersBelow(n - 1) {
        var i :| 0 <= i < n - 1 && GPow(i) == GPow(n - 1);
        GPowDistinct(i, n - 1);
      }
    }
  }

  lemma {:induction false} OneToSize(n: nat)
    ensures |OneTo(n)| == n
  {
    if n != 0 {
      OneToSize(n - 1);
    }
  }

  lemma SubsetOfSameSize(a: set<int>, b: set<int>)
    requires a <= b && |a| == |b|
    ensures a == b
  {
    assert |b - a| == |b| - |a|;
  }

  lemma LogExists(a: byte)
    requires a != 0
    ensures exists i :: 0 <= i < 255 && GPow(i) == a
  {
    var powers, nonzero := PowersBelow(255), OneTo(255);
    forall v | v in powers
      ensures v in nonzero
    {
      var i :| 0 <= i < 255 && v == GPow(i);
      GPowNonzero(i);
    }
    PowersBelowSize(255);
    OneToSize(255);
    SubsetOfSameSize(powers, nonzero);
    assert a as int in nonzero;
  }

  /** The discrete logarithm of a nonzero byte. */
  ghost function Log(a: byte): (i: nat)
    requires a != 0
    ensures i < 255 && GPow(i) == a
  {
    LogExists(a);
    var i :| 0 <= i < 255 && GPow(i) == a;
    i
  }

  // ----- field laws

  lemma {:induction false} TimesZero(a: byte)
    ensures Times(a, 0) == 0 && Times(0, a) == 0
    decreases a
  {
    if a != 0 {
      TimesZero(a / 2);
      XorSelf(0);
    }
  }

  lemma TimesComm(a: byte, b: byte)
    ensures Times(a, b) == Times(b, a)
  {
    hide *;
    if a == 0 || b == 0 {
      TimesZero(a);
      TimesZero(b);
    } else {
      GPowAdd(Log(a), Log(b));
      GPowAdd(Log(b), Log(a));
    }
  }

  lemma TimesAssoc(a: byte, b: byte, c: byte)
    ensures Times(Times(a, b), c) == Times(a, Times(b, c))
  {
    hide *;
    if a == 0 || b == 0 || c == 0 {
      TimesZero(a);
      TimesZero(b);
      TimesZero(c);
      TimesZero(Times(a, b));
      TimesZero(Times(b, c));
    } else {
      var i, j, k := Log(a), Log(b), Log(c);
      GPowAdd(i, j);
      GPowAdd(j, k);
      GPowAdd(i + j, k);
      GPowAdd(i, j + k);
    }
  }

  lemma TimesXorLeft(a: byte, b: byte, c: byte)
    ensures Times(BXor(a, b), c) == BXor(Times(a, c), Times(b, c))
  {
    hide *;
    TimesComm(BXor(a, b), c);
    TimesComm(a, c);
    TimesComm(b, c);
    TimesXor(c, a, b);
  }

  lemma PeriodInverse(d: nat, i: nat)
    requires GPow(d) == 1 && i < d
    ensures Times(GPow(i), GPow(d - i)) == 1
  {
    GPowAdd(i, d - i);
  }

  lemma WrapExponent(d: nat, i: nat)
    requires i < d
    ensures (d - i) % d == if i == 0 then 0 else d - i
  {}

  lemma InverseExponent(i: nat, e: nat)
    requires i < 255 && e == (255 - i) % 255
    ensures Times(GPow(i), GPow(e)) == 1
  {
    hide Times, Xor, Xtime;
    WrapExponent(255, i);
    if i == 0 {
      TimesOne(GPow(i));
    } else {
      GeneratorPeriod();
      PeriodInverse(255, i);
    }
  }
}
