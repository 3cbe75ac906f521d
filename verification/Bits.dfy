/** Unsigned machine words as integers, with exclusive or defined bit by bit. */
module Bits {

  type byte = x: int | 0 <= x < 256

  function Xor(a: nat, b: nat): (r: nat)
    decreases a + b
  {
    if a == 0 && b == 0 then 0
    else 2 * Xor(a / 2, b / 2) + if a % 2 == b % 2 then 0 else 1
  }

  lemma Halves(x: nat, y: nat, bit: nat)
    requires bit < 2 && x == 2 * y + bit
    ensures x / 2 == y && x % 2 == bit
  {}

  lemma XorStep(a: nat, b: nat)
    ensures Xor(a, b) / 2 == Xor(a / 2, b / 2)
    ensures Xor(a, b) % 2 == if a % 2 == b % 2 then 0 else 1
  {
    var bit := if a % 2 == b % 2 then 0 else 1;
    assert Xor(a, b) == 2 * Xor(a / 2, b / 2) + bit;
    Halves(Xor(a, b), Xor(a / 2, b / 2), bit);
  }

  lemma {:induction false} XorComm(a: nat, b: nat)
    ensures Xor(a, b) == Xor(b, a)
    decreases a + b
  {
    if a != 0 || b != 0 {
      XorComm(a / 2, b / 2);
    }
  }

  lemma {:induction false} XorAssoc(a: nat, b: nat, c: nat)
    ensures Xor(Xor(a, b), c) == Xor(a, Xor(b, c))
    decreases a + b + c
  {
    if a != 0 || b != 0 || c != 0 {
      XorAssoc(a / 2, b / 2, c / 2);
      XorStep(a, b);
      XorStep(b, c);
      XorEq(Xor(a, b), c, a, Xor(b, c));
    }
  }

  lemma XorEq(a: nat, b: nat, c: nat, d: nat)
    requires Xor(a / 2, b / 2) == Xor(c / 2, d / 2)
    requires a % 2 == b % 2 <==> c % 2 == d % 2
    ensures Xor(a, b) == Xor(c, d)
  {}

  lemma {:induction false} XorSelf(a: nat)
    ensures Xor(a, a) == 0
  {
    if a != 0 {
      XorSelf(a / 2);
    }
  }

  lemma {:induction false} XorId(a: nat)
    ensures Xor(a, 0) == a
  {
    if a != 0 {
      XorId(a / 2);
    }
  }

  /** Exclusive or with the same word twice changes nothing. */
  lemma XorCancel(a: nat, b: nat)
    ensures Xor(Xor(a, b), b) == a
    ensures Xor(a, Xor(a, b)) == b
  {
    XorAssoc(a, b, b);
    XorAssoc(a, a, b);
    XorSelf(a);
    XorSelf(b);
    XorId(a);
    XorId(b);
    XorComm(0, b);
  }

  lemma XorZero(a: nat, b: nat)
    ensures Xor(a, b) == 0 <==> a == b
  {
    XorSelf(a);
    XorCancel(a, b);
    XorId(a);
  }

  lemma {:induction false} XorBelow(a: nat, b: nat, w: nat)
    requires a < Pow2(w) && b < Pow2(w)
    ensures Xor(a, b) < Pow2(w)
  {
    if w != 0 && (a != 0 || b != 0) {
      XorBelow(a / 2, b / 2, w - 1);
    }
  }

  function Pow2(w: nat): (r: nat)
    ensures r >= 1
  {
    if w == 0 then 1 else 2 * Pow2(w - 1)
  }

  function BXor(a: byte, b: byte): (r: byte)
    ensures r == Xor(a, b)
  {
    assert Pow2(8) == 256;
    XorBelow(a, b, 8);
    Xor(a, b)
  }

  lemma XorBottom()
    ensures Xor(1, 1) == Xor(0, 0)
  {}

  lemma XorHighStep(p: nat, a: nat, b: nat)
    requires Xor(p + a / 2, p + b / 2) == Xor(a / 2, b / 2)
    ensures Xor(2 * p + a, 2 * p + b) == Xor(a, b)
  {
    hide *;
    Halves(2 * p + a, p + a / 2, a % 2);
    Halves(2 * p + b, p + b / 2, b % 2);
    XorEq(2 * p + a, 2 * p + b, a, b);
  }

  lemma {:induction false} XorHigh(a: nat, b: nat, w: nat)
    requires a < Pow2(w) && b < Pow2(w)
    ensures Xor(Pow2(w) + a, Pow2(w) + b) == Xor(a, b)
  {
    if w == 0 {
      XorBottom();
    } else {
      hide Xor;
      XorHigh(a / 2, b / 2, w - 1);
      XorHighStep(Pow2(w - 1), a, b);
    }
  }

  lemma {:induction false} XorTop(a: nat, b: nat, w: nat)
    requires a < Pow2(w + 1) && b < Pow2(w + 1)
    ensures Xor(a, b) >= Pow2(w) <==> (a >= Pow2(w)) != (b >= Pow2(w))
  {
    if w != 0 && (a != 0 || b != 0) {
      XorTop(a / 2, b / 2, w - 1);
    }
  }

  lemma XorDouble(a: nat, b: nat)
    ensures Xor(2 * a, 2 * b) == 2 * Xor(a, b)
  {}

  lemma XorSwap(a: nat, b: nat, c: nat, d: nat)
    ensures Xor(Xor(a, b), Xor(c, d)) == Xor(Xor(a, c), Xor(b, d))
  {
    XorAssoc(a, b, Xor(c, d));
    XorAssoc(b, c, d); XorComm(b, c); XorAssoc(c, b, d);
    XorAssoc(a, c, Xor(b, d));
  }

  function And(a: nat, b: nat): (r: nat)
    decreases a + b
  {
    if a == 0 && b == 0 then 0
    else 2 * And(a / 2, b / 2) + if a % 2 == 1 && b % 2 == 1 then 1 else 0
  }

  lemma {:induction false} AndSelf(a: nat)
    ensures And(a, a) == a
  {
    if a != 0 {
      AndSelf(a / 2);
    }
  }
}
