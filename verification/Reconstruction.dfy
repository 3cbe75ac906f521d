/** Reconstruction undoes parity: a lost data column comes back from P, from Q, or from both. */
module Reconstruction {
  import opened Bits
  import opened Field256
  import opened Galois

  /** `p` and `q` hold the parity bytes that belong to these data blocks, at byte position `b`. */
  ghost predicate IsParity(isQ: bool, blocks: seq<seq<byte>>, parity: seq<byte>, b: nat) {
    b < |parity| && parity[b] == ColumnSum(isQ, Enumerate(blocks), b)
  }

  // ----- a sum splits into the columns that are there and the columns that are not

  lemma SumAppend(isQ: bool, cols: seq<Column>, last: Column, b: nat)
    ensures ColumnSum(isQ, cols + [last], b)
         == BXor(ColumnSum(isQ, cols, b), Times(Coeff(isQ, last.idx), At(last.block, b)))
  {
    assert (cols + [last])[..|cols|] == cols;
  }

  lemma {:induction false} SumSplits(isQ: bool, cols: seq<Column>, idxs: set<nat>, b: nat)
    ensures ColumnSum(isQ, cols, b)
         == BXor(ColumnSum(isQ, Select(cols, idxs, false), b), ColumnSum(isQ, Select(cols, idxs, true), b))
  {
    if |cols| == 0 {
      XorId(0);
    } else {
      var front, last := cols[..|cols| - 1], cols[|cols| - 1];
      SumSplits(isQ, front, idxs, b);
      var outside, inside := Select(front, idxs, false), Select(front, idxs, true);
      var so, si := ColumnSum(isQ, outside, b), ColumnSum(isQ, inside, b);
      var v := Times(Coeff(isQ, last.idx), At(last.block, b));
      XorAssoc(so, si, v);
      if last.idx in idxs {
        SumAppend(isQ, inside, last, b);
        assert outside + [] == outside;
      } else {
        SumAppend(isQ, outside, last, b);
        assert inside + [] == inside;
        XorComm(si, v);
        XorAssoc(so, v, si);
      }
    }
  }

  lemma {:induction false} SelectRange(blocks: seq<seq<byte>>, idxs: set<nat>, n: nat)
    requires n <= |blocks|
    requires forall i | 0 <= i < n :: i !in idxs
    ensures Select(Enumerate(blocks)[..n], idxs, true) == []
  {
    if n != 0 {
      SelectRange(blocks, idxs, n - 1);
      assert Enumerate(blocks)[..n][..n - 1] == Enumerate(blocks)[..n - 1];
    }
  }

  lemma {:induction false} SelectOne(blocks: seq<seq<byte>>, idxs: set<nat>, x: nat, n: nat)
    requires x < n <= |blocks|
    requires forall i | 0 <= i < n :: i in idxs <==> i == x
    ensures Select(Enumerate(blocks)[..n], idxs, true) == [Column(x, blocks[x])]
    decreases n
  {
    assert Enumerate(blocks)[..n][..n - 1] == Enumerate(blocks)[..n - 1];
    if x == n - 1 {
      SelectRange(blocks, idxs, n - 1);
    } else {
      SelectOne(blocks, idxs, x, n - 1);
    }
  }

  lemma {:induction false} SelectTwo(blocks: seq<seq<byte>>, x: nat, y: nat, n: nat)
    requires x < y < n <= |blocks|
    ensures Select(Enumerate(blocks)[..n], {x, y}, true) == [Column(x, blocks[x]), Column(y, blocks[y])]
    decreases n
  {
    assert Enumerate(blocks)[..n][..n - 1] == Enumerate(blocks)[..n - 1];
    if y == n - 1 {
      SelectOne(blocks, {x, y}, x, n - 1);
    } else {
      SelectTwo(blocks, x, y, n - 1);
    }
  }

  lemma SumOne(isQ: bool, c: Column, b: nat)
    ensures ColumnSum(isQ, [c], b) == Times(Coeff(isQ, c.idx), At(c.block, b))
  {
    SumAppend(isQ, [], c, b);
    XorComm(0, Times(Coeff(isQ, c.idx), At(c.block, b)));
    XorId(Times(Coeff(isQ, c.idx), At(c.block, b)));
    assert [] + [c] == [c];
  }

  /** Removing the surviving columns from a parity byte leaves the weighted lost column. */
  lemma OneLost(isQ: bool, blocks: seq<seq<byte>>, parity: seq<byte>, x: nat, b: nat)
    requires x < |blocks| && IsParity(isQ, blocks, parity, b)
    ensures BXor(parity[b], ColumnSum(isQ, Select(Enumerate(blocks), {x}, false), b))
         == Times(Coeff(isQ, x), At(blocks[x], b))
  {
    var cols := Enumerate(blocks);
    SumSplits(isQ, cols, {x}, b);
    SelectOne(blocks, {x}, x, |blocks|);
    assert cols[..|blocks|] == cols;
    SumOne(isQ, Column(x, blocks[x]), b);
    RemoveLeft(ColumnSum(isQ, Select(cols, {x}, false), b), Times(Coeff(isQ, x), At(blocks[x], b)));
  }

  lemma RemoveLeft(a: byte, d: byte)
    ensures BXor(BXor(a, d), a) == d
  {
    XorComm(BXor(a, d), a);
    XorCancel(a, d);
  }

  lemma TwoLost(isQ: bool, blocks: seq<seq<byte>>, parity: seq<byte>, x: nat, y: nat, b: nat)
    requires x < y < |blocks| && IsParity(isQ, blocks, parity, b)
    ensures BXor(parity[b], ColumnSum(isQ, Select(Enumerate(blocks), {x, y}, false), b))
         == BXor(Times(Coeff(isQ, x), At(blocks[x], b)), Times(Coeff(isQ, y), At(blocks[y], b)))
  {
    var cols := Enumerate(blocks);
    var cx, cy := Column(x, blocks[x]), Column(y, blocks[y]);
    SumSplits(isQ, cols, {x, y}, b);
    SelectTwo(blocks, x, y, |blocks|);
    assert cols[..|blocks|] == cols;
    SumOne(isQ, cx, b);
    SumAppend(isQ, [cx], cy, b);
    assert [cx] + [cy] == [cx, cy];
    RemoveLeft(ColumnSum(isQ, Select(cols, {x, y}, false), b), ColumnSum(isQ, [cx, cy], b));
  }

  // ----- the three reconstructions are left inverses of the parity computations

  lemma ReconstructWithPInverts(blocks: seq<seq<byte>>, pBlock: seq<byte>, x: nat, b: nat)
    requires x < |blocks| && IsParity(false, blocks, pBlock, b)
    ensures MissingFromP(Select(Enumerate(blocks), {x}, false), pBlock, b) == At(blocks[x], b)
  {
    OneLost(false, blocks, pBlock, x, b);
    TimesOne(At(blocks[x], b));
  }

  lemma ReconstructWithQInverts(gf: GaloisField, blocks: seq<seq<byte>>, qBlock: seq<byte>, x: nat, b: nat)
    requires gf.Valid() && x < |blocks| && IsParity(true, blocks, qBlock, b)
    ensures MissingFromQ(gf, Select(Enumerate(blocks), {x}, false), qBlock, x, b) == At(blocks[x], b)
  {
    OneLost(true, blocks, qBlock, x, b);
    GPowNonzero(x);
    DivideOut(gf, GPow(x), At(blocks[x], b));
  }

  /** Multiplying by an inverse undoes a multiplication. */
  lemma DivideOut(gf: GaloisField, c: byte, d: byte)
    requires gf.Valid() && c != 0
    ensures Times(gf.Inv(c), Times(c, d)) == d
    ensures Times(Times(c, d), gf.Inv(c)) == d
  {
    TimesAssoc(gf.Inv(c), c, d);
    TimesComm(gf.Inv(c), c);
    TimesOne(d);
    TimesComm(gf.Inv(c), Times(c, d));
  }

  /** Eliminating D_x from the two equations leaves a multiple of D_y. */
  lemma Eliminate(gx: byte, gy: byte, dx: byte, dy: byte)
    ensures BXor(BXor(Times(gx, dx), Times(gy, dy)), Times(gx, BXor(dx, dy))) == Times(BXor(gy, gx), dy)
  {
    TimesXor(gx, dx, dy);
    TimesXorLeft(gy, gx, dy);
    XorSwap(Times(gx, dx), Times(gy, dy), Times(gx, dx), Times(gx, dy));
    XorSelf(Times(gx, dx));
    XorComm(0, BXor(Times(gy, dy), Times(gx, dy)));
    XorId(BXor(Times(gy, dy), Times(gx, dy)));
  }

  /** What the two-column reconstruction computes, whether or not the coefficients differ. */
  lemma PairByte(gf: GaloisField, blocks: seq<seq<byte>>, pBlock: seq<byte>, qBlock: seq<byte>, x: nat, y: nat, b: nat)
    requires gf.Valid() && x < y < |blocks|
    requires IsParity(false, blocks, pBlock, b) && IsParity(true, blocks, qBlock, b)
    ensures var (dx, dy) := MissingPair(gf, Select(Enumerate(blocks), {x, y}, false), pBlock, qBlock, x, y, b);
      if GPow(x) == GPow(y)
      then dx == BXor(At(blocks[x], b), At(blocks[y], b)) && dy == 0
      else dx == At(blocks[x], b) && dy == At(blocks[y], b)
  {
    var dx, dy := At(blocks[x], b), At(blocks[y], b);
    var gx, gy := GPow(x), GPow(y);
    TwoLost(false, blocks, pBlock, x, y, b);
    TwoLost(true, blocks, qBlock, x, y, b);
    TimesOne(dx);
    TimesOne(dy);
    Eliminate(gx, gy, dx, dy);
    XorZero(gy, gx);
    if gx == gy {
      TimesZero(Times(0, dy));
      XorId(BXor(dx, dy));
    } else {
      DivideOut(gf, BXor(gy, gx), dy);
      XorCancel(dx, dy);
    }
  }

  /** Two lost data columns come back, provided their coefficients differ: that is so below 256 columns. */
  lemma Reconstruct2DataInverts(gf: GaloisField, blocks: seq<seq<byte>>, pBlock: seq<byte>, qBlock: seq<byte>,
                                x: nat, y: nat, b: nat)
    requires gf.Valid() && x < y < |blocks| && x % 255 != y % 255
    requires IsParity(false, blocks, pBlock, b) && IsParity(true, blocks, qBlock, b)
    ensures MissingPair(gf, Select(Enumerate(blocks), {x, y}, false), pBlock, qBlock, x, y, b)
         == (At(blocks[x], b), At(blocks[y], b))
  {
    SameCoefficient(x, y);
    PairByte(gf, blocks, pBlock, qBlock, x, y, b);
  }

  /** Coefficients repeat exactly every 255 columns. */
  lemma SameCoefficient(x: nat, y: nat)
    ensures GPow(x) == GPow(y) <==> x % 255 == y % 255
  {
    GPowMod(x);
    GPowMod(y);
    if x % 255 < y % 255 {
      GPowDistinct(x % 255, y % 255);
    } else if y % 255 < x % 255 {
      GPowDistinct(y % 255, x % 255);
    }
  }

  /** A stripe of `n` one-byte columns that are all zero except column `y`. */
  function OnlyColumn(n: nat, y: nat): (blocks: seq<seq<byte>>)
    ensures |blocks| == n
  {
    seq(n, i => if i == y then [1] else [0])
  }

  ghost predicate PairRecovered(gf: GaloisField, blocks: seq<seq<byte>>, pBlock: seq<byte>, qBlock: seq<byte>,
                                x: nat, y: nat, b: nat)
    requires gf.Valid() && x < y < |blocks|
  {
    IsParity(false, blocks, pBlock, b) && IsParity(true, blocks, qBlock, b) ==>
      MissingPair(gf, Select(Enumerate(blocks), {x, y}, false), pBlock, qBlock, x, y, b)
      == (At(blocks[x], b), At(blocks[y], b))
  }

  lemma AliasedPairLost(gf: GaloisField, n: nat, x: nat, y: nat)
    requires gf.Valid() && x < y < n && x % 255 == y % 255
    ensures exists blocks: seq<seq<byte>>, pBlock, qBlock ::
      |blocks| == n && !PairRecovered(gf, blocks, pBlock, qBlock, x, y, 0)
  {
    var blocks := OnlyColumn(n, y);
    var cols := Enumerate(blocks);
    var pBlock, qBlock := [ColumnSum(false, cols, 0)], [ColumnSum(true, cols, 0)];
    SameCoefficient(x, y);
    PairByte(gf, blocks, pBlock, qBlock, x, y, 0);
    assert !PairRecovered(gf, blocks, pBlock, qBlock, x, y, 0);
  }

  /** Columns x and y can be lost together, whatever the data, if and only if x and y differ modulo 255. */
  lemma PairRecoverable(gf: GaloisField, n: nat, x: nat, y: nat)
    requires gf.Valid() && x < y < n
    ensures x % 255 != y % 255 <==>
      forall blocks: seq<seq<byte>>, pBlock, qBlock, b | |blocks| == n ::
        PairRecovered(gf, blocks, pBlock, qBlock, x, y, b)
  {
    if x % 255 != y % 255 {
      forall blocks: seq<seq<byte>>, pBlock, qBlock, b: nat | |blocks| == n
        ensures PairRecovered(gf, blocks, pBlock, qBlock, x, y, b)
      {
        if IsParity(false, blocks, pBlock, b) && IsParity(true, blocks, qBlock, b) {
          Reconstruct2DataInverts(gf, blocks, pBlock, qBlock, x, y, b);
        }
      }
    } else {
      AliasedPairLost(gf, n, x, y);
    }
  }
}
