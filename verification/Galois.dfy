/** Table-driven GF(2^8) arithmetic and the RAID parity computations built on it. */
module Galois {
  import opened Bits
  import opened Field256

  // ----- what parity means: sums over the data columns of a stripe

  /** A data block together with its column number. */
  datatype Column = Column(idx: nat, block: seq<byte>)

  /** Byte `b` of a block; a block that is too short contributes nothing. */
  function At(block: seq<byte>, b: nat): byte {
    if b < |block| then block[b] else 0
  }

  /** Weight of a column: 1 in the P sum, g^idx in the Q sum. */
  function Coeff(isQ: bool, idx: nat): byte {
    if isQ then GPow(idx) else 1
  }

  function ColumnSum(isQ: bool, cols: seq<Column>, b: nat): byte {
    if |cols| == 0 then 0
    else
      var last := cols[|cols| - 1];
      BXor(ColumnSum(isQ, cols[..|cols| - 1], b), Times(Coeff(isQ, last.idx), At(last.block, b)))
  }

  function Enumerate(blocks: seq<seq<byte>>): (cols: seq<Column>)
    ensures |cols| == |blocks|
    ensures forall i | 0 <= i < |cols| :: cols[i] == Column(i, blocks[i])
  {
    seq(|blocks|, i requires 0 <= i < |blocks| => Column(i, blocks[i]))
  }

  /** The columns whose number is in `idxs` (or, with `inside` false, is not), in order. */
  function Select(cols: seq<Column>, idxs: set<nat>, inside: bool): seq<Column> {
    if |cols| == 0 then []
    else
      var last := cols[|cols| - 1];
      Select(cols[..|cols| - 1], idxs, inside) + if (last.idx in idxs) == inside then [last] else []
  }

  // ----- one byte of each reconstruction

  function MissingFromP(intact: seq<Column>, pBlock: seq<byte>, b: nat): byte {
    BXor(At(pBlock, b), ColumnSum(false, intact, b))
  }

  function MissingFromQ(gf: GaloisField, intact: seq<Column>, qBlock: seq<byte>, x: nat, b: nat): byte
    requires gf.Valid()
  {
    Times(gf.Inv(GPow(x)), BXor(At(qBlock, b), ColumnSum(true, intact, b)))
  }

  function MissingPair(gf: GaloisField, intact: seq<Column>, pBlock: seq<byte>, qBlock: seq<byte>,
                       x: nat, y: nat, b: nat): (byte, byte)
    requires gf.Valid()
  {
    var p, q := BXor(At(pBlock, b), ColumnSum(false, intact, b)), BXor(At(qBlock, b), ColumnSum(true, intact, b));
    var dy := Times(BXor(q, Times(GPow(x), p)), gf.Inv(BXor(GPow(y), GPow(x))));
    (BXor(p, dy), dy)
  }

  lemma NoColumns(parity: seq<byte>, cols: seq<Column>, isQ: bool)
    ensures forall b | 0 <= b < |parity| :: BXor(parity[b], ColumnSum(isQ, cols[..0], b)) == parity[b]
  {
    forall b | 0 <= b < |parity|
      ensures BXor(parity[b], ColumnSum(isQ, cols[..0], b)) == parity[b]
    {
      XorId(parity[b]);
    }
  }

  lemma NextColumn(parity: seq<byte>, cols: seq<Column>, i: nat, isQ: bool)
    requires i < |cols|
    ensures forall b | 0 <= b < |parity| ::
      BXor(BXor(parity[b], ColumnSum(isQ, cols[..i], b)), Times(Coeff(isQ, cols[i].idx), At(cols[i].block, b)))
      == BXor(parity[b], ColumnSum(isQ, cols[..i + 1], b))
  {
    assert cols[..i + 1][..i] == cols[..i];
    forall b | 0 <= b < |parity| {
      XorAssoc(parity[b], ColumnSum(isQ, cols[..i], b), Times(Coeff(isQ, cols[i].idx), At(cols[i].block, b)));
    }
  }

  /** The three lookup tables, filled once and read-only afterwards. */
  datatype GaloisField = GaloisField(expTable: seq<byte>, logTable: seq<byte>, invTable: seq<byte>)
  {
    ghost predicate Valid() {
      && |expTable| == 512 && |logTable| == 256 && |invTable| == 256
      && (forall i | 0 <= i < 512 :: expTable[i] == GPow(i))
      && (forall a | 1 <= a < 256 :: logTable[a] < 255 && GPow(logTable[a]) == a)
      && invTable[0] == 0
      && (forall a: byte | 1 <= a < 256 :: Times(a, invTable[a]) == 1)
    }

    static method New() returns (gf: GaloisField)
      ensures gf.Valid()
    {
      var expTable := new byte[512](_ => 0);
      var logTable := new byte[256](_ => 0);
      var invTable := new byte[256](_ => 0);
      FillPowers(expTable, logTable);
      FillInverses(expTable, logTable, invTable);
      gf := GaloisField(expTable[..], logTable[..], invTable[..]);
    }

    /** Inverts each nonzero byte by negating its logarithm modulo 255. */
    static method FillInverses(expTable: array<byte>, logTable: array<byte>, invTable: array<byte>)
      requires expTable.Length == 512 && logTable.Length == 256 && invTable.Length == 256
      requires expTable != invTable && logTable != invTable
      requires forall i | 0 <= i < 512 :: expTable[i] == GPow(i)
      requires forall a | 1 <= a < 256 :: logTable[a] < 255 && GPow(logTable[a]) == a
      modifies invTable
      ensures invTable[0] == 0
      ensures forall a: byte | 1 <= a < 256 :: Times(a, invTable[a]) == 1
    {
      hide Times, Xor, GPow;
      invTable[0] := 0;
      for i := 1 to 256
        invariant invTable[0] == 0
        invariant forall a: byte | 1 <= a < i :: Times(a, invTable[a]) == 1
      {
        var logI := logTable[i] as nat;
        var invLog := (255 - logI) % 255;
        InverseExponent(logI, invLog);
        invTable[i] := expTable[invLog];
      }
    }

    /** The shift loop: one pass over the powers of the generator fills both tables. */
    static method FillPowers(expTable: array<byte>, logTable: array<byte>)
      requires expTable.Length == 512 && logTable.Length == 256 && expTable != logTable
      modifies expTable, logTable
      ensures forall i | 0 <= i < 512 :: expTable[i] == GPow(i)
      ensures forall a | 1 <= a < 256 :: logTable[a] < 255 && GPow(logTable[a]) == a
    {
      hide Times, Xor;
      var val: nat := 1;
      for i := 0 to 255
        invariant val == GPow(i)
        invariant forall j | 0 <= j < i :: expTable[j] == GPow(j)
        invariant forall j | 255 <= j < 255 + i :: expTable[j] == GPow(j - 255)
        invariant forall j | 0 <= j < i :: logTable[GPow(j)] == j
      {
        FreshPower(i);
        expTable[i] := val;
        expTable[i + 255] := val;
        logTable[val] := i;

        val := 2 * val;
        if val / 256 % 2 != 0 {
          val := Xor(val, GF_POLY);
        }
      }
      expTable[510] := expTable[0];
      expTable[511] := expTable[1];
      DoubledTable(expTable[..]);
      forall a | 1 <= a < 256
        ensures logTable[a] < 255 && GPow(logTable[a]) == a
      {
        LogExists(a);
      }
    }

    function Add(a: byte, b: byte): byte {
      BXor(a, b)
    }

    function Mul(a: byte, b: byte): (r: byte)
      requires Valid()
      ensures r == Times(a, b)
    {
      if a == 0 || b == 0 then
        TimesZero(a);
        TimesZero(b);
        0
      else
        var logA, logB := logTable[a] as nat, logTable[b] as nat;
        GPowAdd(logA, logB);
        expTable[logA + logB]
    }

    /** The source panics when a nonzero byte is divided by zero. */
    function Div(a: byte, b: byte): (r: byte)
      requires Valid()
      requires a == 0 || b != 0
      ensures b != 0 ==> Times(r, b) == a
    {
      if a == 0 then
        TimesZero(b);
        0
      else
        var logA, logB := logTable[a] as nat, logTable[b] as nat;
        DivExponent(logA, logB);
        expTable[logA + 255 - logB]
    }

    function Inv(a: byte): (r: byte)
      requires Valid()
      ensures if a == 0 then r == 0 else Times(a, r) == 1
    {
      invTable[a]
    }

    function Pow(power: nat): (r: byte)
      requires Valid()
      ensures r == GPow(power)
    {
      GPowMod(power);
      expTable[power % 255]
    }

    /** One zipped pass: exclusive or `coeff * block` into the buffer, up to the shorter length. */
    method MulXorInto(coeff: byte, block: seq<byte>, buf: array<byte>)
      requires Valid()
      modifies buf
      ensures forall b | 0 <= b < buf.Length :: buf[b] == BXor(old(buf[b]), Times(coeff, At(block, b)))
    {
      TimesZero(coeff);
      for i := 0 to if |block| < buf.Length then |block| else buf.Length
        invariant forall b | 0 <= b < i :: buf[b] == BXor(old(buf[b]), Times(coeff, At(block, b)))
        invariant forall b | i <= b < buf.Length :: buf[b] == old(buf[b])
      {
        buf[i] := BXor(buf[i], Mul(coeff, block[i]));
      }
      forall b | |block| <= b < buf.Length
        ensures BXor(buf[b], 0) == buf[b]
      {
        XorId(buf[b]);
      }
    }

    method XorInto(block: seq<byte>, buf: array<byte>)
      modifies buf
      ensures forall b | 0 <= b < buf.Length :: buf[b] == BXor(old(buf[b]), Times(1, At(block, b)))
    {
      for i := 0 to if |block| < buf.Length then |block| else buf.Length
        invariant forall b | 0 <= b < i :: buf[b] == BXor(old(buf[b]), Times(1, At(block, b)))
        invariant forall b | i <= b < buf.Length :: buf[b] == old(buf[b])
      {
        TimesOne(block[i]);
        buf[i] := BXor(buf[i], block[i]);
      }
      TimesOne(0);
      forall b | |block| <= b < buf.Length
        ensures BXor(buf[b], 0) == buf[b]
      {
        XorId(buf[b]);
      }
    }

    method ComputePParity(dataBlocks: seq<seq<byte>>, outP: array<byte>)
      modifies outP
      ensures forall b | 0 <= b < outP.Length :: outP[b] == ColumnSum(false, Enumerate(dataBlocks), b)
    {
      forall b | 0 <= b < outP.Length { outP[b] := 0; }
      ghost var cols := Enumerate(dataBlocks);
      for i := 0 to |dataBlocks|
        invariant forall b | 0 <= b < outP.Length :: outP[b] == ColumnSum(false, cols[..i], b)
      {
        assert cols[..i + 1][..i] == cols[..i];
        XorInto(dataBlocks[i], outP);
      }
      assert cols[..|cols|] == cols;
    }

    method ComputeQParity(dataBlocks: seq<seq<byte>>, outQ: array<byte>)
      requires Valid()
      modifies outQ
      ensures forall b | 0 <= b < outQ.Length :: outQ[b] == ColumnSum(true, Enumerate(dataBlocks), b)
    {
      forall b | 0 <= b < outQ.Length { outQ[b] := 0; }
      ghost var cols := Enumerate(dataBlocks);
      for i := 0 to |dataBlocks|
        invariant forall b | 0 <= b < outQ.Length :: outQ[b] == ColumnSum(true, cols[..i], b)
      {
        assert cols[..i + 1][..i] == cols[..i];
        MulXorInto(Pow(i), dataBlocks[i], outQ);
      }
      assert cols[..|cols|] == cols;
    }

    /** Rebuilds one data block from P: D_x = P ^ (sum of the intact columns). */
    method ReconstructWithP(intact: seq<Column>, pBlock: seq<byte>, outMissing: array<byte>)
      requires outMissing.Length == |pBlock|
      modifies outMissing
      ensures forall b | 0 <= b < |pBlock| :: outMissing[b] == MissingFromP(intact, pBlock, b)
    {
      forall b | 0 <= b < |pBlock| { outMissing[b] := pBlock[b]; }
      NoColumns(pBlock, intact, false);
      for i := 0 to |intact|
        invariant forall b | 0 <= b < |pBlock| :: outMissing[b] == BXor(pBlock[b], ColumnSum(false, intact[..i], b))
      {
        NextColumn(pBlock, intact, i, false);
        XorInto(intact[i].block, outMissing);
      }
      assert intact[..|intact|] == intact;
    }

    /** Rebuilds one data block from Q: D_x = g^-x * (Q ^ weighted sum of the intact columns). */
    method ReconstructWithQ(intact: seq<Column>, qBlock: seq<byte>, missingIdx: nat, outMissing: array<byte>)
      requires Valid()
      modifies outMissing
      ensures forall b | 0 <= b < outMissing.Length ::
        outMissing[b] == if b < |qBlock| then MissingFromQ(this, intact, qBlock, missingIdx, b) else old(outMissing[b])
    {
      hide BXor, ColumnSum, GPow, Times;
      var qSum := FoldColumns(true, intact, qBlock);
      var invGx := Inv(Pow(missingIdx));
      for b := 0 to if |qBlock| < outMissing.Length then |qBlock| else outMissing.Length
        invariant forall c | 0 <= c < b :: outMissing[c] == MissingFromQ(this, intact, qBlock, missingIdx, c)
        invariant forall c | b <= c < outMissing.Length :: outMissing[c] == old(outMissing[c])
      {
        outMissing[b] := Mul(invGx, qSum[b]);
      }
    }

    /** A parity block with the contribution of every given column removed from it. */
    method FoldColumns(isQ: bool, intact: seq<Column>, parity: seq<byte>) returns (rest: seq<byte>)
      requires Valid()
      ensures |rest| == |parity|
      ensures forall b | 0 <= b < |parity| :: rest[b] == BXor(parity[b], ColumnSum(isQ, intact, b))
    {
      var buf := new byte[|parity|](b requires 0 <= b < |parity| => parity[b]);
      NoColumns(parity, intact, isQ);
      for i := 0 to |intact|
        invariant forall b | 0 <= b < |parity| :: buf[b] == BXor(parity[b], ColumnSum(isQ, intact[..i], b))
      {
        NextColumn(parity, intact, i, isQ);
        if isQ {
          MulXorInto(Pow(intact[i].idx), intact[i].block, buf);
        } else {
          XorInto(intact[i].block, buf);
        }
      }
      assert intact[..|intact|] == intact;
      rest := buf[..];
    }

    /** Rebuilds two data blocks: P and Q give two equations in D_x and D_y. */
    method Reconstruct2Data(intact: seq<Column>, pBlock: seq<byte>, qBlock: seq<byte>, idxX: nat, idxY: nat,
                            outX: array<byte>, outY: array<byte>)
      requires Valid()
      requires outX != outY
      requires outY.Length <= |pBlock| && outY.Length <= |qBlock| && outY.Length <= outX.Length
      modifies outX, outY
      ensures forall b | 0 <= b < outY.Length ::
        var (dx, dy) := MissingPair(this, intact, pBlock, qBlock, idxX, idxY, b);
        outX[b] == dx && outY[b] == dy
      ensures forall b | outY.Length <= b < outX.Length :: outX[b] == old(outX[b])
    {
      hide BXor, ColumnSum, GPow, Times;
      var pXY := FoldColumns(false, intact, pBlock);
      var qXY := FoldColumns(true, intact, qBlock);
      var gx, gy := Pow(idxX), Pow(idxY);
      var denomInv := Inv(Add(gy, gx));
      for b := 0 to outY.Length
        invariant forall c | 0 <= c < b ::
          var (dx, dy) := MissingPair(this, intact, pBlock, qBlock, idxX, idxY, c);
          outX[c] == dx && outY[c] == dy
        invariant forall c | b <= c < outX.Length :: outX[c] == old(outX[c])
      {
        var num := Add(qXY[b], Mul(gx, pXY[b]));
        var dy := Mul(num, denomInv);
        outY[b] := dy;
        outX[b] := Add(pXY[b], dy);
      }
    }
  }

  lemma FreshPower(i: nat)
    requires i < 255
    ensures forall j | 0 <= j < i :: GPow(j) != GPow(i)
  {
    hide *;
    forall j | 0 <= j < i
      ensures GPow(j) != GPow(i)
    {
      GPowDistinct(j, i);
    }
  }

  lemma DoubledTable(t: seq<byte>)
    requires |t| == 512
    requires forall j | 0 <= j < 255 :: t[j] == GPow(j)
    requires forall j | 255 <= j < 510 :: t[j] == GPow(j - 255)
    requires t[510] == t[0] && t[511] == t[1]
    ensures forall j | 0 <= j < 512 :: t[j] == GPow(j)
  {
    hide *;
    GPowPlusPeriod(0);
    GPowPlusPeriod(1);
    forall j | 255 <= j < 512
      ensures t[j] == GPow(j)
    {
      GPowPlusPeriod(j - 255);
    }
  }

  lemma DivExponent(i: nat, j: nat)
    requires i < 255 && j < 255
    ensures Times(GPow(i + 255 - j), GPow(j)) == GPow(i)
  {
    hide *;
    GPowAdd(i + 255 - j, j);
    GPowPlusPeriod(i);
  }
}
