/** Which sets of missing members a RAID 6 array of any size survives, whatever its data. */
module Recoverability {
  import opened Arithmetic
  import opened Bits
  import opened DegradedRead
  import opened Field256
  import opened Galois
  import opened Layout
  import opened RaidArrays
  import opened Reconstruction
  import opened Wrappers

  /** No two data columns on missing members of this row coincide modulo 255. */
  ghost predicate ColumnsDistinct(g: RaidGeometry, missing: set<nat>, row: nat)
    requires g.Valid()
  {
    forall x: nat, y: nat | x < y < g.DataDisks() && g.DataMember(row, x) in missing
      && g.DataMember(row, y) in missing ::
      x % 255 != y % 255
  }

  /** The array with these members taken away. */
  function Without(h: RaidArray, missing: set<nat>): RaidArray {
    h.(members := seq(|h.members|, i requires 0 <= i < |h.members| => if i in missing then None else h.members[i]))
  }

  /** A tolerable set of missing members. */
  predicate Tolerable(g: RaidGeometry, missing: set<nat>) {
    |missing| <= ParityCount(g.level) && forall i | i in missing :: i < g.numMembers
  }

  lemma WithoutDegrades(h: RaidArray, missing: set<nat>)
    requires Complete(h) && Tolerable(h.geometry, missing)
    ensures Degrades(Without(h, missing), h) && Without(h, missing).Missing() == missing
  {
    hide GaloisField.Valid, RaidGeometry.Valid, RaidGeometry.TotalLogicalSectors;
    assert Without(h, missing).Missing() == missing;
  }

  lemma DistinctIff(h: RaidArray, missing: set<nat>, row: nat)
    requires Complete(h) && h.geometry.level.Raid6? && Tolerable(h.geometry, missing)
    ensures PairsDistinct(Without(h, missing), row) <==> ColumnsDistinct(h.geometry, missing, row)
  {
    hide *;
    WithoutDegrades(h, missing);
    WithoutParts(h, missing);
    PairsAreColumns(Without(h, missing), row);
  }

  lemma WithoutParts(h: RaidArray, missing: set<nat>)
    requires Degrades(Without(h, missing), h)
    ensures Without(h, missing).Valid() && Without(h, missing).geometry == h.geometry
  {
    hide RaidArray.Valid;
  }

  lemma PairsAreColumns(d: RaidArray, row: nat)
    requires d.Valid() && d.geometry.level.Raid6?
    ensures PairsDistinct(d, row) <==> ColumnsDistinct(d.geometry, d.Missing(), row)
  {
    assert d.geometry.Valid();
    hide PairsDistinct, ColumnsDistinct, RaidArray.Valid, RaidGeometry.Valid;
    if ColumnsDistinct(d.geometry, d.Missing(), row) {
      ColumnsToPairs(d, row);
    }
    if PairsDistinct(d, row) {
      PairsToColumns(d, row);
    }
  }

  lemma ColumnsToPairs(d: RaidArray, row: nat)
    requires d.geometry.Valid() && ColumnsDistinct(d.geometry, d.Missing(), row)
    ensures PairsDistinct(d, row)
  {
    hide RaidGeometry.DataMember, RaidGeometry.DataDisks, RaidArray.LostColumns, RaidArray.Missing, RaidGeometry.Valid;
    var lost := d.LostColumns(row, d.geometry.DataDisks());
    if |lost| == 2 {
      LostColumnsSorted(d, row, d.geometry.DataDisks());
      assert lost[0] in lost && lost[1] in lost;
    }
  }

  lemma PairsToColumns(d: RaidArray, row: nat)
    requires d.Valid() && d.geometry.level.Raid6? && PairsDistinct(d, row)
    ensures ColumnsDistinct(d.geometry, d.Missing(), row)
  {
    assert d.geometry.Valid();
    hide RaidGeometry.DataMember, RaidGeometry.DataDisks, RaidArray.LostColumns, RaidArray.Missing, RaidGeometry.Valid,
      RaidArray.Valid, PairsDistinct;
    var g := d.geometry;
    forall x: nat, y: nat | x < y < g.DataDisks() && g.DataMember(row, x) in d.Missing()
      && g.DataMember(row, y) in d.Missing()
      ensures x % 255 != y % 255
    {
      LostPairDistinct(d, row, x, y);
    }
  }

  lemma LostPairDistinct(d: RaidArray, row: nat, x: nat, y: nat)
    requires d.Valid() && d.geometry.level.Raid6? && x < y < d.geometry.DataDisks() && PairsDistinct(d, row)
    requires d.ColumnLost(row, x) && d.ColumnLost(row, y)
    ensures x % 255 != y % 255
  {
    assert d.geometry.Valid();
    hide RaidArray.Valid, RaidGeometry.Valid, RaidArray.ColumnLost, RaidArray.LostColumns;
    LostPair(d, row, x, y);
  }

  /** Two lost columns are all the lost columns. */
  lemma LostPair(d: RaidArray, row: nat, x: nat, y: nat)
    requires d.Valid() && d.geometry.level.Raid6? && x < y < d.geometry.DataDisks()
    requires d.ColumnLost(row, x) && d.ColumnLost(row, y)
    ensures d.LostColumns(row, d.geometry.DataDisks()) == [x, y]
  {
    LostDataMember(d, row, x);
    DataMemberSound(d.geometry, row, x);
    DataMemberSound(d.geometry, row, y);
    hide RaidGeometry.DataMember, RaidArray.LostColumns, RaidGeometry.ParityP, GaloisField.Valid, RaidGeometry.Valid;
    var lost := d.LostColumns(row, d.geometry.DataDisks());
    assert x in lost && y in lost;
  }

  // ----- a complete array with data in one byte of one column

  function Spot(length: nat, at: nat, v: byte): (r: seq<byte>)
    ensures |r| == length
  {
    seq(length, k => if k == at then v else 0)
  }

  /** What member `i` stores at the chosen byte: data in column `y` of the row, and its parity. */
  function SpotValue(g: RaidGeometry, row: nat, y: nat, i: nat): byte
    requires g.Valid()
  {
    if i == g.DataMember(row, y) || i == g.ParityP(row) then 1
    else if i == g.ParityQ(row) then GPow(y)
    else 0
  }

  function SpotArray(g: RaidGeometry, gf: GaloisField, row: nat, y: nat, at: nat): RaidArray
    requires g.Valid()
  {
    RaidArray(seq(g.numMembers, (i: nat) =>
                Some(Disk(Spot(g.memberCapacitySectors * g.sectorSize, at, SpotValue(g, row, y, i)), {}))),
              g, gf, g.TotalLogicalSectors())
  }

  lemma SpotComplete(g: RaidGeometry, gf: GaloisField, row: nat, y: nat, at: nat)
    requires g.Valid() && gf.Valid()
    ensures Complete(SpotArray(g, gf, row, y, at)) && FullyReadable(SpotArray(g, gf, row, y, at))
  {
    hide GaloisField.Valid, RaidGeometry.Valid, RaidGeometry.TotalLogicalSectors, SpotValue, Spot;
    var h := SpotArray(g, gf, row, y, at);
    assert h.Missing() == {};
    forall i, sector | 0 <= i < |h.members| && 0 <= sector < g.memberCapacitySectors
      ensures h.members[i].value.SectorOk(g.sectorSize, sector)
    {
      MulMono(sector + 1, g.memberCapacitySectors, g.sectorSize);
    }
  }

  lemma SpotBytes(g: RaidGeometry, gf: GaloisField, row: nat, y: nat, at: nat, i: nat, o: nat)
    requires g.Valid() && i < g.numMembers
    ensures |SpotArray(g, gf, row, y, at).MemberBytes(i)| == g.memberCapacitySectors * g.sectorSize
    ensures At(SpotArray(g, gf, row, y, at).MemberBytes(i), o)
         == if o == at && o < g.memberCapacitySectors * g.sectorSize then SpotValue(g, row, y, i) else 0
  {
    hide SpotValue, RaidGeometry.Valid, RaidGeometry.TotalLogicalSectors;
  }

  lemma {:induction false} ZeroSum(isQ: bool, cols: seq<Column>, o: nat)
    requires forall k | 0 <= k < |cols| :: At(cols[k].block, o) == 0
    ensures ColumnSum(isQ, cols, o) == 0
  {
    if |cols| != 0 {
      var n := |cols| - 1;
      ZeroSum(isQ, cols[..n], o);
      TimesZero(Coeff(isQ, cols[n].idx));
      XorId(0);
    }
  }

  /** Only column `y` holds anything, and that is one. */
  lemma {:induction false} OneColumnSum(isQ: bool, cols: seq<Column>, y: nat, o: nat)
    requires y < |cols| && cols[y].idx == y && At(cols[y].block, o) == 1
    requires forall k | 0 <= k < |cols| && k != y :: At(cols[k].block, o) == 0
    ensures ColumnSum(isQ, cols, o) == Coeff(isQ, y)
    decreases |cols|
  {
    hide At, Coeff, Times, Xor;
    var n := |cols| - 1;
    var rest := cols[..n];
    if y == n {
      ZeroSum(isQ, rest, o);
      TimesOne(Coeff(isQ, y));
      XorComm(0, Coeff(isQ, y));
      XorId(Coeff(isQ, y));
    } else {
      OneColumnSum(isQ, rest, y, o);
      TimesZero(Coeff(isQ, cols[n].idx));
      XorId(Coeff(isQ, y));
    }
  }

  // ----- its parity is consistent

  /** Byte position of the start of a stripe row on its members. */
  function RowStart(g: RaidGeometry, row: nat): int
    requires g.Valid()
  {
    (g.dataOffsetSectors + row * g.ChunkSectors()) * g.sectorSize
  }

  lemma RowBounds(g: RaidGeometry, row: nat, o: nat)
    requires g.Valid() && InRow(g, row, o)
    ensures RowStart(g, row) <= o < RowStart(g, row) + g.chunkSizeBytes && o < g.memberCapacitySectors * g.sectorSize
  {
    hide RaidGeometry.ChunkSectors, RaidGeometry.StripeRows;
    var cs, first := g.ChunkSectors(), g.dataOffsetSectors + row * g.ChunkSectors();
    SlotOfRow(g, row, cs - 1);
    ChunkBytes(g);
    assert (first + cs) * g.sectorSize == first * g.sectorSize + cs * g.sectorSize;
    MulMono(first + cs, g.memberCapacitySectors, g.sectorSize);
  }

  lemma RowsApart(g: RaidGeometry, a: nat, b: nat)
    requires g.Valid() && a < b
    ensures RowStart(g, a) + g.chunkSizeBytes <= RowStart(g, b)
  {
    hide RaidGeometry.ChunkSectors;
    var cs, off := g.ChunkSectors(), g.dataOffsetSectors;
    ChunkBytes(g);
    assert (a + 1) * cs == a * cs + cs;
    MulMono(a + 1, b, cs);
    assert (off + a * cs + cs) * g.sectorSize == (off + a * cs) * g.sectorSize + cs * g.sectorSize;
    MulMono(off + a * cs + cs, off + b * cs, g.sectorSize);
  }

  lemma RowOfStart(g: RaidGeometry, row: nat, other: nat)
    requires g.Valid() && InRow(g, other, RowStart(g, row)) && g.chunkSizeBytes != 0
    ensures other == row
  {
    RowBounds(g, other, RowStart(g, row));
    hide RowStart, InRow, RaidGeometry.Valid;
    if other < row {
      RowsApart(g, other, row);
    } else if row < other {
      RowsApart(g, row, other);
    }
  }

  /** In the chosen row, only column `y` and parity have a value. */
  lemma SpotValues(g: RaidGeometry, row: nat, y: nat)
    requires g.Valid() && g.level.Raid6? && y < g.DataDisks()
    ensures SpotValue(g, row, y, g.ParityP(row)) == 1 && SpotValue(g, row, y, g.ParityQ(row)) == GPow(y)
    ensures forall c | 0 <= c < g.DataDisks() :: SpotValue(g, row, y, g.DataMember(row, c)) == if c == y then 1 else 0
  {
    ParityDistinct(g, row);
    hide RaidGeometry.DataMember, RaidGeometry.ParityP, RaidGeometry.ParityQ, RaidGeometry.ColumnOf;
    DataMemberSound(g, row, y);
    forall c | 0 <= c < g.DataDisks()
      ensures SpotValue(g, row, y, g.DataMember(row, c)) == if c == y then 1 else 0
    {
      DataMemberSound(g, row, c);
    }
  }

  lemma SpotParity(g: RaidGeometry, gf: GaloisField, row: nat, y: nat, other: nat, o: nat, isQ: bool, i: nat, at: nat)
    requires g.Valid() && g.level.Raid6? && y < g.DataDisks() && at == RowStart(g, row) && InRow(g, other, o)
    requires i == if isQ then g.ParityQ(other) else g.ParityP(other)
    ensures var h := SpotArray(g, gf, row, y, at); IsParity(isQ, DataBlocks(h, other), h.MemberBytes(i), o)
  {
    RowBounds(g, other, o);
    if o == at {
      RowOfStart(g, row, other);
      SpotValues(g, row, y);
    }
    hide SpotArray, SpotValue, InRow, RowStart, RaidGeometry.DataMember, RaidGeometry.ParityP, RaidGeometry.ParityQ,
      RaidGeometry.Valid, ColumnSum;
    var h := SpotArray(g, gf, row, y, at);
    assert h.geometry == g by { SpotGeometry(g, gf, row, y, at); }
    var cols := Enumerate(DataBlocks(h, other));
    SpotBytes(g, gf, row, y, at, i, o);
    forall c | 0 <= c < g.DataDisks()
      ensures At(cols[c].block, o) == if o == at then SpotValue(g, row, y, g.DataMember(other, c)) else 0
    {
      DataMemberSound(g, other, c);
      SpotBytes(g, gf, row, y, at, g.DataMember(other, c), o);
    }
    if o == at {
      OneColumnSum(isQ, cols, y, o);
    } else {
      ZeroSum(isQ, cols, o);
    }
  }

  lemma SpotGeometry(g: RaidGeometry, gf: GaloisField, row: nat, y: nat, at: nat)
    requires g.Valid()
    ensures SpotArray(g, gf, row, y, at).geometry == g && SpotArray(g, gf, row, y, at).galois == gf
    ensures |SpotArray(g, gf, row, y, at).members| == g.numMembers
    ensures SpotArray(g, gf, row, y, at).totalLogicalBlocks == g.TotalLogicalSectors()
  {}

  lemma SpotConsistent(g: RaidGeometry, gf: GaloisField, row: nat, y: nat, at: nat)
    requires g.Valid() && gf.Valid() && g.level.Raid6? && y < g.DataDisks() && at == RowStart(g, row)
    ensures Consistent(SpotArray(g, gf, row, y, at))
  {
    SpotComplete(g, gf, row, y, at);
    SpotGeometry(g, gf, row, y, at);
    hide SpotArray, InRow, RowStart, Complete, IsParity, RaidGeometry.Valid;
    var h := SpotArray(g, gf, row, y, at);
    forall other, o | InRow(h.geometry, other, o)
      ensures RowParity(h, other, o)
    {
      SpotParity(g, gf, row, y, other, o, false, g.ParityP(other), at);
      SpotParity(g, gf, row, y, other, o, true, g.ParityQ(other), at);
    }
  }

  // ----- survival of all data

  /** Without these members, every read gives what it gives on the complete array. */
  ghost predicate ReadsAlike(h: RaidArray, missing: set<nat>)
    requires h.geometry.Valid() && h.galois.Valid()
  {
    forall start: nat, count: nat :: Without(h, missing).ReadResult(start, count) == h.ReadResult(start, count)
  }

  /** An undamaged array of this geometry, with any data. */
  ghost predicate Sound(h: RaidArray, g: RaidGeometry) {
    h.geometry == g && h.galois.Valid() && Consistent(h) && FullyReadable(h)
  }

  lemma DistinctRowsSurvive(h: RaidArray, g: RaidGeometry, missing: set<nat>)
    requires Sound(h, g) && g.level.Raid6? && Tolerable(g, missing)
    requires forall row | 0 <= row < g.StripeRows() :: ColumnsDistinct(g, missing, row)
    ensures ReadsAlike(h, missing)
  {
    WithoutDegrades(h, missing);
    var d := Without(h, missing);
    hide Without, PairsDistinct, ColumnsDistinct, FullyReadable, RaidArray.ReadResult, RaidArray.LogicalBytes,
      RaidArray.Valid, RaidGeometry.Valid, RowParity, Degrades;
    assert d.geometry == g by { WithoutParts(h, missing); }
    forall row | 0 <= row < g.StripeRows()
      ensures PairsDistinct(d, row)
    {
      DistinctIff(h, missing, row);
    }
    forall start: nat, count: nat
      ensures d.ReadResult(start, count) == h.ReadResult(start, count)
    {
      DistinctReadsComplete(d, h, start, count);
    }
  }

  lemma FirstByteRead(a: RaidArray, lba: nat, loc: DiskBlockLocation)
    requires a.Valid() && FullyReadable(a) && lba < a.totalLogicalBlocks && loc == a.geometry.MapLba(lba)
    ensures a.geometry.sectorSize != 0 && a.ReadResult(lba, 1).Ok?
      && |a.ReadResult(lba, 1).value| == a.geometry.sectorSize
    ensures a.ReadResult(lba, 1).value[0] == a.ByteAt(loc.stripeRow, loc.dataCol, loc.memberLba * a.geometry.sectorSize)
  {
    assert a.geometry.Valid() && a.galois.Valid() && a.geometry.sectorSize != 0;
    hide RaidArray.ByteAt, RaidGeometry.MapLba, RaidArray.Valid, RaidGeometry.Valid, FullyReadable, GaloisField.Valid,
      RaidArray.LbaReadable, RaidArray.LogicalByte;
    AllReadable(a, lba);
    assert 0 / a.geometry.sectorSize == 0
      && 0 % a.geometry.sectorSize == 0 by { DivModUnique(0, a.geometry.sectorSize, 0); }
    SectorByteAt(a, lba, loc, 0, 0, loc.memberLba * a.geometry.sectorSize);
  }

  /** The byte that the chosen row's column reads as, complete and without the two columns. */
  lemma SpotRead(g: RaidGeometry, gf: GaloisField, missing: set<nat>, row: nat, x: nat, y: nat, at: nat)
    requires g.Valid() && gf.Valid() && g.level.Raid6? && Tolerable(g, missing) && row < g.StripeRows()
    requires x < y < g.DataDisks() && x % 255 == y % 255
    requires g.DataMember(row, x) in missing && g.DataMember(row, y) in missing && at == RowStart(g, row)
    ensures var h := SpotArray(g, gf, row, y, at);
      h.ByteAt(row, y, at) == 1 && Without(h, missing).ByteAt(row, y, at) == 0
  {
    var h := SpotArray(g, gf, row, y, at);
    SpotConsistent(g, gf, row, y, at);
    SpotGeometry(g, gf, row, y, at);
    WithoutDegrades(h, missing);
    WithoutParts(h, missing);
    assert InRow(g, row, at);
    RowBounds(g, row, at);
    DataMemberSound(g, row, y);
    SpotValues(g, row, y);
    hide Without, SpotArray, SpotValue, InRow, RowStart, RaidGeometry.DataMember, RaidGeometry.Valid, GaloisField.Valid,
      RaidArray.ByteAt, RaidArray.Valid, RaidArray.LostColumns;
    SpotBytes(g, gf, row, y, at, g.DataMember(row, y), at);
    CompleteByte(h, row, y, at);
    ColumnBlock(h, row, y);
    var d := Without(h, missing);
    LostPair(d, row, x, y);
    AliasedPairByte(d, h, row, x, y, at);
  }

  lemma AliasedColumns(g: RaidGeometry, missing: set<nat>, row: nat) returns (x: nat, y: nat)
    requires g.Valid() && !ColumnsDistinct(g, missing, row)
    ensures x < y < g.DataDisks() && g.DataMember(row, x) in missing && g.DataMember(row, y) in missing
      && x % 255 == y % 255
  {
    x, y :| x < y < g.DataDisks() && g.DataMember(row, x) in missing && g.DataMember(row, y) in missing
      && x % 255 == y % 255;
  }

  /** The first sector of a column: on the array, on its member, and in bytes. */
  lemma ColumnStart(g: RaidGeometry, row: nat, y: nat) returns (lba: nat, loc: DiskBlockLocation, at: nat)
    requires g.Valid() && row < g.StripeRows() && y < g.DataDisks()
    ensures lba < g.TotalLogicalSectors() && loc == g.MapLba(lba)
    ensures loc.stripeRow == row && loc.dataCol == y && loc.memberLba * g.sectorSize == at == RowStart(g, row)
  {
    hide RaidGeometry.TotalLogicalSectors, RaidGeometry.StripeRows, RaidGeometry.DataDisks, RaidGeometry.ChunkSectors,
      RaidGeometry.MapLba, RaidGeometry.Valid;
    var sector: nat := g.dataOffsetSectors + row * g.ChunkSectors();
    lba, at := (row * g.DataDisks() + y) * g.ChunkSectors(), sector * g.sectorSize;
    LbaOfChunk(g, row, y, 0, sector, lba);
    loc := g.MapLba(lba);
  }

  lemma NotAlike(h: RaidArray, missing: set<nat>, lba: nat)
    requires h.geometry.Valid() && h.galois.Valid()
    requires Without(h, missing).ReadResult(lba, 1) != h.ReadResult(lba, 1)
    ensures !ReadsAlike(h, missing)
  {
    hide RaidArray.ReadResult, RaidGeometry.Valid, GaloisField.Valid;
  }

  lemma WithoutReadable(h: RaidArray, missing: set<nat>)
    requires FullyReadable(h)
    ensures FullyReadable(Without(h, missing))
  {}

  lemma SpotSound(g: RaidGeometry, gf: GaloisField, row: nat, y: nat, at: nat)
    requires g.Valid() && gf.Valid() && g.level.Raid6? && y < g.DataDisks() && at == RowStart(g, row)
    ensures var h := SpotArray(g, gf, row, y, at);
      Sound(h, g) && h.Valid() && FullyReadable(h) && Complete(h) && h.totalLogicalBlocks == g.TotalLogicalSectors()
  {
    hide SpotArray, RowStart, FullyReadable, Consistent, RaidArray.Valid, RaidGeometry.Valid, GaloisField.Valid;
    SpotConsistent(g, gf, row, y, at);
    SpotComplete(g, gf, row, y, at);
    SpotGeometry(g, gf, row, y, at);
  }

  lemma AliasedRowIsLost(g: RaidGeometry, gf: GaloisField, missing: set<nat>, row: nat) returns (h: RaidArray)
    requires g.Valid() && gf.Valid() && g.level.Raid6? && Tolerable(g, missing) && row < g.StripeRows()
    requires !ColumnsDistinct(g, missing, row)
    ensures Sound(h, g) && h.galois == gf && !ReadsAlike(h, missing)
  {
    hide *;
    var x, y := AliasedColumns(g, missing, row);
    var lba, loc, at := ColumnStart(g, row, y);
    h := SpotArray(g, gf, row, y, at);
    SpotGeometry(g, gf, row, y, at);
    SpotSound(g, gf, row, y, at);
    SpotRead(g, gf, missing, row, x, y, at);
    WithoutDegrades(h, missing);
    WithoutParts(h, missing);
    WithoutReadable(h, missing);
    WithoutSize(h, missing);
    FirstByteRead(h, lba, loc);
    FirstByteRead(Without(h, missing), lba, loc);
    assert h.ReadResult(lba, 1).value[0] == 1 && Without(h, missing).ReadResult(lba, 1).value[0] == 0;
    NotAlike(h, missing, lba);
  }

  lemma WithoutSize(h: RaidArray, missing: set<nat>)
    ensures Without(h, missing).totalLogicalBlocks == h.totalLogicalBlocks
    ensures Without(h, missing).galois == h.galois && Without(h, missing).geometry == h.geometry
  {}

  /**
   * A RAID 6 array of any size survives the loss of these members, whatever its data, if and only if no two lost
   * data columns of one of its rows coincide modulo 255.
   */
  lemma SurvivesAllDataIff(g: RaidGeometry, gf: GaloisField, missing: set<nat>)
    requires g.Valid() && gf.Valid() && g.level.Raid6? && |missing| <= 2 && forall i | i in missing :: i < g.numMembers
    ensures (forall row | 0 <= row < g.StripeRows() :: ColumnsDistinct(g, missing, row))
      <==> (forall h: RaidArray | Sound(h, g) :: ReadsAlike(h, missing))
  {
    hide ReadsAlike, ColumnsDistinct, Consistent, FullyReadable, RaidGeometry.Valid, GaloisField.Valid,
      RaidGeometry.StripeRows;
    if forall row | 0 <= row < g.StripeRows() :: ColumnsDistinct(g, missing, row) {
      forall h: RaidArray | Sound(h, g)
        ensures ReadsAlike(h, missing)
      {
        DistinctRowsSurvive(h, g, missing);
      }
    } else {
      var row :| 0 <= row < g.StripeRows() && !ColumnsDistinct(g, missing, row);
      var h := AliasedRowIsLost(g, gf, missing, row);
    }
  }
}
