/** A RAID volume read through its surviving members. */
module RaidArrays {
  import opened Arithmetic
  import opened Bits
  import opened Field256
  import opened Galois
  import opened Layout
  import opened Reconstruction
  import opened Wrappers

  datatype IoError = OutOfBounds | ReadFailure

  datatype RaidError = MemberCountMismatch | InsufficientMembers

  /** A member drive: its bytes, and the sectors on which every read fails. */
  datatype Disk = Disk(bytes: seq<byte>, bad: set<nat>)
  {
    predicate SectorOk(sectorSize: nat, lba: nat) {
      (lba + 1) * sectorSize <= |bytes| && lba !in bad
    }

    predicate RangeOk(sectorSize: nat, lba: nat, count: nat) {
      forall s | lba <= s < lba + count :: SectorOk(sectorSize, s)
    }

    /** Reads `count` blocks or fails as a whole. */
    function Read(sectorSize: nat, lba: nat, count: nat): (r: Result<seq<byte>, IoError>)
      requires sectorSize != 0 && count != 0
      ensures r.Ok? <==> RangeOk(sectorSize, lba, count)
      ensures r.Ok? ==> |r.value| == count * sectorSize
      ensures r.Ok? ==> forall b | 0 <= b < count * sectorSize :: r.value[b] == At(bytes, lba * sectorSize + b)
    {
      RangeEnd(this, sectorSize, lba, count);
      if (lba + count) * sectorSize > |bytes| || exists s | lba <= s < lba + count :: s in bad then
        Err(ReadFailure)
      else
        assert (lba + count) * sectorSize == lba * sectorSize + count * sectorSize;
        Ok(bytes[lba * sectorSize..(lba + count) * sectorSize])
    }
  }

  lemma RangeEnd(d: Disk, sectorSize: nat, lba: nat, count: nat)
    requires sectorSize != 0 && count != 0
    ensures d.RangeOk(sectorSize, lba, count) <==>
      (lba + count) * sectorSize <= |d.bytes| && forall s | lba <= s < lba + count :: s !in d.bad
  {
    if d.RangeOk(sectorSize, lba, count) {
      assert d.SectorOk(sectorSize, lba + count - 1);
      forall s | lba <= s < lba + count
        ensures s !in d.bad
      {
        assert d.SectorOk(sectorSize, s);
      }
    }
    if (lba + count) * sectorSize <= |d.bytes| {
      forall s | lba <= s < lba + count && s !in d.bad
        ensures d.SectorOk(sectorSize, s)
      {
        MulMono(s + 1, lba + count, sectorSize);
      }
    }
  }

  /** The members of a set, as a count over a list. */
  function CountMissing(members: seq<Option<Disk>>): nat {
    if |members| == 0 then 0
    else CountMissing(members[..|members| - 1]) + if members[|members| - 1].None? then 1 else 0
  }

  function MissingBelow(members: seq<Option<Disk>>, n: nat): set<nat>
    requires n <= |members|
  {
    set i | 0 <= i < n && members[i].None?
  }

  lemma {:induction false} CountMissingIsSize(members: seq<Option<Disk>>)
    ensures CountMissing(members) == |MissingBelow(members, |members|)|
  {
    var n := |members|;
    if n != 0 {
      var front := members[..n - 1];
      CountMissingIsSize(front);
      assert MissingBelow(front, n - 1) == MissingBelow(members, n - 1);
      if members[n - 1].None? {
        assert MissingBelow(members, n) == MissingBelow(members, n - 1) + {n - 1};
      } else {
        assert MissingBelow(members, n) == MissingBelow(members, n - 1);
      }
    }
  }

  datatype RaidArray = RaidArray(
    members: seq<Option<Disk>>, geometry: RaidGeometry, galois: GaloisField, totalLogicalBlocks: nat)
  {
    ghost predicate Valid() {
      && geometry.Valid() && galois.Valid()
      && |members| == geometry.numMembers
      && |Missing()| <= ParityCount(geometry.level)
      && totalLogicalBlocks == geometry.TotalLogicalSectors()
    }

    function Missing(): set<nat> {
      MissingBelow(members, |members|)
    }

    /** Assembles an array, rejecting more missing members than the level tolerates. */
    static method New(geometry: RaidGeometry, members: seq<Option<Disk>>) returns (r: Result<RaidArray, RaidError>)
      requires geometry.Valid()
      ensures r.Ok? ==> r.value.Valid() && r.value.members == members && r.value.geometry == geometry
      ensures r.Ok? <==>
        |members| == geometry.numMembers && |MissingBelow(members, |members|)| <= ParityCount(geometry.level)
      ensures r.Err? ==>
        r.error == if |members| != geometry.numMembers then MemberCountMismatch else InsufficientMembers
    {
      if |members| != geometry.numMembers {
        return Err(MemberCountMismatch);
      }
      var missingCount := CountMissing(members);
      CountMissingIsSize(members);
      match geometry.level {
        case Raid0 => if missingCount > 0 { return Err(InsufficientMembers); }
        case Raid5 => if missingCount > 1 { return Err(InsufficientMembers); }
        case Raid6 => if missingCount > 2 { return Err(InsufficientMembers); }
      }
      var galois := GaloisField.New();
      r := Ok(RaidArray(members, geometry, galois, geometry.TotalLogicalSectors()));
    }

    // ----- what a read means, one byte at a time

    function MemberBytes(i: nat): seq<byte> {
      if i < |members| && members[i].Some? then members[i].value.bytes else []
    }

    /** Every member's bytes, numbered by member. */
    function MemberColumns(): seq<Column> {
      Enumerate(seq(|members|, (i: nat) => MemberBytes(i)))
    }

    /** The data columns of a stripe row, numbered by column. */
    function DataColumns(row: nat): seq<Column>
      requires geometry.Valid()
    {
      Enumerate(seq(geometry.DataDisks(), (c: nat) => MemberBytes(geometry.DataMember(row, c))))
    }

    predicate ColumnLost(row: nat, col: nat)
      requires geometry.Valid()
    {
      geometry.DataMember(row, col) in Missing()
    }

    /** The lost data columns of a row among the first `n`, in order. */
    function LostColumns(row: nat, n: nat): (lost: seq<nat>)
      requires geometry.Valid()
      ensures forall c: nat :: c in lost <==> c < n && ColumnLost(row, c)
    {
      if n == 0 then []
      else LostColumns(row, n - 1) + if ColumnLost(row, n - 1) then [n - 1] else []
    }

    function Present(): set<nat> {
      set i | 0 <= i < |members| && members[i].Some?
    }

    /** The members whose blocks are read in order to produce data column `col`. */
    function Needed(row: nat, col: nat): set<nat>
      requires geometry.Valid()
    {
      var m := geometry.DataMember(row, col);
      if m !in Missing() then {m}
      else if geometry.level.Raid6? && Missing() == {m} then Present() - {geometry.ParityQ(row)}
      else Present()
    }

    function LostSet(row: nat): set<nat>
      requires geometry.Valid()
    {
      set c | c in LostColumns(row, geometry.DataDisks())
    }

    function IntactColumns(row: nat): seq<Column>
      requires geometry.Valid()
    {
      Select(DataColumns(row), LostSet(row), false)
    }

    /** Byte `o` of data column `col`, taken from its member or rebuilt from the others. */
    function ByteAt(row: nat, col: nat, o: nat): byte
      requires geometry.Valid() && galois.Valid()
    {
      var m := geometry.DataMember(row, col);
      var p, q := geometry.ParityP(row), geometry.ParityQ(row);
      var lost := LostColumns(row, geometry.DataDisks());
      var intact := IntactColumns(row);
      if m !in Missing() then At(MemberBytes(m), o)
      else match geometry.level
        case Raid0 => 0
        case Raid5 => ColumnSum(false, Select(MemberColumns(), {m}, false), o)
        case Raid6 =>
          if Missing() == {m} then ColumnSum(false, Select(MemberColumns(), {m, q}, false), o)
          else if p in Missing() then MissingFromQ(galois, intact, MemberBytes(q), col, o)
          else if q in Missing() then MissingFromP(intact, MemberBytes(p), o)
          else if |lost| != 2 then 0
          else
            var (dx, dy) := MissingPair(galois, intact, MemberBytes(p), MemberBytes(q), lost[0], lost[1], o);
            if col == lost[0] then dx else dy
    }

    predicate MemberSectorOk(i: nat, sector: nat) {
      i < |members| && members[i].Some? && members[i].value.SectorOk(geometry.sectorSize, sector)
    }

    /** Can sector `sector` be read on every member that column `col` needs? */
    predicate SectorReadable(row: nat, col: nat, sector: nat)
      requires geometry.Valid()
    {
      forall i | i in Needed(row, col) :: MemberSectorOk(i, sector)
    }

    predicate LbaReadable(lba: nat)
      requires geometry.Valid()
    {
      var loc := geometry.MapLba(lba);
      SectorReadable(loc.stripeRow, loc.dataCol, loc.memberLba)
    }

    /** Byte `b` of array sector `lba`. */
    function LogicalByte(lba: nat, b: nat): byte
      requires geometry.Valid() && galois.Valid()
    {
      var loc := geometry.MapLba(lba);
      ByteAt(loc.stripeRow, loc.dataCol, loc.memberLba * geometry.sectorSize + b)
    }

    /** The bytes of `count` array sectors, laid end to end. */
    function LogicalBytes(start: nat, count: nat): (bytes: seq<byte>)
      requires geometry.Valid() && galois.Valid()
      ensures |bytes| == count * geometry.sectorSize
    {
      seq(count * geometry.sectorSize,
          k requires 0 <= k < count * geometry.sectorSize =>
            LogicalByte(start + k / geometry.sectorSize, k % geometry.sectorSize))
    }

    function ReadResult(start: nat, count: nat): Result<seq<byte>, IoError>
      requires geometry.Valid() && galois.Valid()
    {
      if start + count > totalLogicalBlocks then Err(OutOfBounds)
      else if forall lba | start <= lba < start + count :: LbaReadable(lba) then Ok(LogicalBytes(start, count))
      else Err(ReadFailure)
    }

    // ----- reading

    /** A location inside a stripe row, with the block size that a chunk allows. */
    predicate IsDataLocation(loc: DiskBlockLocation)
      requires geometry.Valid()
    {
      && loc.dataCol < geometry.DataDisks()
      && loc.memberIdx == geometry.DataMember(loc.stripeRow, loc.dataCol)
      && loc.memberLba == geometry.dataOffsetSectors + loc.stripeRow * geometry.ChunkSectors() + loc.offsetInChunk
    }

    predicate BlockReadable(i: nat, lba: nat, count: nat) {
      i < |members| && members[i].Some? && members[i].value.RangeOk(geometry.sectorSize, lba, count)
    }

    /** Exclusive or of the same block on every member outside `skip`; fails if one of them is missing or unreadable. */
    method XorOthers(loc: DiskBlockLocation, count: nat, skip: set<nat>) returns (r: Result<seq<byte>, IoError>)
      requires Valid() && count != 0 && IsDataLocation(loc)
      ensures r.Ok? <==> forall i | 0 <= i < |members| && i !in skip :: BlockReadable(i, loc.memberLba, count)
      ensures r.Ok? ==> |r.value| == count * geometry.sectorSize
      ensures r.Ok? ==> forall b | 0 <= b < |r.value| ::
        r.value[b] == ColumnSum(false, Select(MemberColumns(), skip, false), loc.memberLba * geometry.sectorSize + b)
    {
      hide ColumnSum, Select, Times, BXor;
      var blockBytes := count * geometry.sectorSize;
      var reconstructed := new byte[blockBytes](_ => 0);
      ghost var base := loc.memberLba * geometry.sectorSize;
      NoMembers(this, skip);
      for diskIdx := 0 to |members|
        invariant forall i | 0 <= i < diskIdx && i !in skip :: BlockReadable(i, loc.memberLba, count)
        invariant forall b | 0 <= b < blockBytes ::
          reconstructed[b] == ColumnSum(false, Select(MemberColumns()[..diskIdx], skip, false), base + b)
      {
        NextMember(this, diskIdx, skip);
        if diskIdx in skip {
          continue;
        }
        if members[diskIdx].None? {
          return Err(ReadFailure);
        }
        var memberLba := geometry.dataOffsetSectors + loc.stripeRow * geometry.ChunkSectors() + loc.offsetInChunk;
        var block := members[diskIdx].value.Read(geometry.sectorSize, memberLba, count);
        if block.Err? {
          return Err(ReadFailure);
        }
        galois.XorInto(block.value, reconstructed);
      }
      assert MemberColumns()[..|members|] == MemberColumns();
      r := Ok(reconstructed[..]);
    }

    /** `block` holds `len` bytes of member `i`, from byte `base` on. */
    ghost predicate IsBlockOf(block: seq<byte>, i: nat, base: nat, len: nat) {
      |block| == len && forall b | 0 <= b < len :: block[b] == At(MemberBytes(i), base + b)
    }

    /** Reads the same block on every surviving member. */
    method ReadSurvivors(loc: DiskBlockLocation, count: nat) returns (r: Result<map<nat, seq<byte>>, IoError>)
      requires Valid() && count != 0 && IsDataLocation(loc)
      ensures r.Ok? <==> forall i | i in Present() :: BlockReadable(i, loc.memberLba, count)
      ensures r.Ok? ==> r.value.Keys == Present()
      ensures r.Ok? ==> forall i | i in Present() ::
        IsBlockOf(r.value[i], i, loc.memberLba * geometry.sectorSize, count * geometry.sectorSize)
    {
      var blocks: map<nat, seq<byte>> := map[];
      for diskIdx := 0 to |members|
        invariant blocks.Keys == set i | 0 <= i < diskIdx && members[i].Some?
        invariant forall i | i in blocks :: BlockReadable(i, loc.memberLba, count)
        invariant forall i | i in blocks ::
          IsBlockOf(blocks[i], i, loc.memberLba * geometry.sectorSize, count * geometry.sectorSize)
      {
        if members[diskIdx].Some? {
          var memberLba := geometry.dataOffsetSectors + loc.stripeRow * geometry.ChunkSectors() + loc.offsetInChunk;
          var data := members[diskIdx].value.Read(geometry.sectorSize, memberLba, count);
          if data.Err? {
            assert diskIdx in Present() && !BlockReadable(diskIdx, loc.memberLba, count);
            return Err(ReadFailure);
          }
          blocks := blocks[diskIdx := data.value];
        }
      }
      r := Ok(blocks);
    }

    /** Recomputes which member holds each data column of a RAID 6 row. */
    method DataDiskIndices(row: nat) returns (indices: seq<nat>)
      requires Valid() && geometry.level.Raid6?
      ensures |indices| == geometry.DataDisks()
      ensures forall c | 0 <= c < |indices| :: indices[c] == geometry.DataMember(row, c)
    {
      var n := geometry.numMembers;
      var p, q := geometry.ParityP(row), geometry.ParityQ(row);
      var lo, hi := if p < q then p else q, if p < q then q else p;
      indices := [];
      for col := 0 to n - 2
        invariant |indices| == col
        invariant forall c | 0 <= c < col :: indices[c] == geometry.DataMember(row, c)
      {
        var idx := col;
        if geometry.layout.LeftSymmetric? || geometry.layout.RightSymmetric? {
          idx := (q + 1 + col) % n;
        } else {
          if idx >= lo {
            idx := idx + 1;
          }
          if idx >= hi {
            idx := idx + 1;
          }
          idx := idx % n;
        }
        indices := indices + [idx];
      }
    }

    /** The blocks of the data columns that survive, numbered by column. */
    method IntactData(loc: DiskBlockLocation, indices: seq<nat>, surviving: map<nat, seq<byte>>,
                      ghost base: nat, ghost len: nat)
      returns (intact: seq<Column>)
      requires Valid() && IsDataLocation(loc) && members[loc.memberIdx].None?
      requires |indices| == geometry.DataDisks()
      requires forall c | 0 <= c < |indices| :: indices[c] == geometry.DataMember(loc.stripeRow, c)
      requires surviving.Keys == Present()
      requires forall i | i in Present() :: IsBlockOf(surviving[i], i, base, len)
      ensures SameBytes(intact, IntactColumns(loc.stripeRow), base, len)
    {
      hide RaidGeometry.DataMember, RaidArray.IsDataLocation;
      intact := [];
      ghost var cols := DataColumns(loc.stripeRow);
      ghost var lost := LostSet(loc.stripeRow);
      for col := 0 to |indices|
        invariant SameBytes(intact, Select(cols[..col], lost, false), base, len)
      {
        assert cols[..col + 1][..col] == cols[..col];
        var d := indices[col];
        DataMemberSound(geometry, loc.stripeRow, col);
        if d != loc.memberIdx && members[d].Some? {
          intact := intact + [Column(col, surviving[d])];
        }
      }
      assert cols[..|indices|] == cols;
    }

    /** `count` sectors of a data column, as the surviving members determine them. */
    ghost predicate ColumnBytes(bytes: seq<byte>, loc: DiskBlockLocation, count: nat)
      requires geometry.Valid() && galois.Valid()
    {
      && |bytes| == count * geometry.sectorSize
      && forall b | 0 <= b < |bytes| ::
        bytes[b] == ByteAt(loc.stripeRow, loc.dataCol, loc.memberLba * geometry.sectorSize + b)
    }

    /** The result of a block read or rebuild of data column `loc.dataCol`. */
    ghost predicate IsColumnBlock(r: Result<seq<byte>, IoError>, loc: DiskBlockLocation, count: nat)
      requires geometry.Valid() && galois.Valid()
    {
      && (r.Ok? <==> forall s | loc.memberLba <= s < loc.memberLba + count ::
            SectorReadable(loc.stripeRow, loc.dataCol, s))
      && (r.Ok? ==> ColumnBytes(r.value, loc, count))
    }

    /** Reads the surviving blocks of the row and rebuilds one lost data column from them. */
    method ReconstructRaid6Block(loc: DiskBlockLocation, count: nat) returns (r: Result<seq<byte>, IoError>)
      requires Valid() && geometry.level.Raid6? && count != 0 && IsDataLocation(loc) && members[loc.memberIdx].None?
      ensures IsColumnBlock(r, loc, count)
    {
      hide ColumnSum, Select, RaidGeometry.MapRaid6Member, RaidGeometry.ParityP,
        MissingFromP, MissingFromQ, MissingPair, RaidArray.BlockReadable, RaidArray.SectorReadable;
      var p, q := geometry.ParityP(loc.stripeRow), geometry.ParityQ(loc.stripeRow);
      var missing := Missing();
      NeededBlocks(this, loc, count);
      DataMemberSound(geometry, loc.stripeRow, loc.dataCol);
      LostDataMember(this, loc.stripeRow, loc.dataCol);

      if |missing| == 1 && p !in missing && members[p].Some? {
        r := XorOthers(loc, count, {loc.memberIdx, q});
        return;
      }

      var survivors := ReadSurvivors(loc, count);
      if survivors.Err? {
        return Err(ReadFailure);
      }
      r := RebuildFrom(loc, count, survivors.value);
    }

    /** The three ways to rebuild a column when a second member is lost, or P is. */
    method RebuildFrom(loc: DiskBlockLocation, count: nat, surviving: map<nat, seq<byte>>)
      returns (r: Result<seq<byte>, IoError>)
      requires Valid() && geometry.level.Raid6? && count != 0 && IsDataLocation(loc)
      requires loc.memberIdx in Missing() && Missing() != {loc.memberIdx}
      requires surviving.Keys == Present()
      requires forall i | i in Present() ::
        IsBlockOf(surviving[i], i, loc.memberLba * geometry.sectorSize, count * geometry.sectorSize)
      ensures r.Ok? && ColumnBytes(r.value, loc, count)
    {
      hide ColumnSum, Select, RaidGeometry.MapRaid6Member, RaidGeometry.ParityP,
        MissingFromP, MissingFromQ, MissingPair, SameBytes;
      var row, blockBytes := loc.stripeRow, count * geometry.sectorSize;
      var p, q := geometry.ParityP(row), geometry.ParityQ(row);
      ghost var base := loc.memberLba * geometry.sectorSize;
      var missing := Missing();
      LostDataMember(this, row, loc.dataCol);
      var indices := DataDiskIndices(row);
      var intact := IntactData(loc, indices, surviving, base, blockBytes);
      ghost var full := IntactColumns(row);

      if p in missing && q !in missing {
        var out := new byte[blockBytes](_ => 0);
        galois.ReconstructWithQ(intact, surviving[q], loc.dataCol, out);
        SameFromQ(this, intact, full, surviving[q], q, loc.dataCol, base, blockBytes);
        return Ok(out[..]);
      }
      if p !in missing && q in missing {
        var out := new byte[blockBytes](_ => 0);
        galois.ReconstructWithP(intact, surviving[p], out);
        SameFromP(this, intact, full, surviving[p], p, base, blockBytes);
        return Ok(out[..]);
      }
      if p !in missing && q !in missing {
        var missingDataCols := LostColumns(row, geometry.DataDisks());
        if |missingDataCols| == 2 {
          var colX, colY := missingDataCols[0], missingDataCols[1];
          var outX, outY := new byte[blockBytes](_ => 0), new byte[blockBytes](_ => 0);
          galois.Reconstruct2Data(intact, surviving[p], surviving[q], colX, colY, outX, outY);
          SamePair(this, intact, full, surviving[p], surviving[q], p, q, colX, colY, base, blockBytes);
          return Ok(if loc.dataCol == colX then outX[..] else outY[..]);
        }
      }
      r := Err(ReadFailure);
    }

    /** Rebuilds a block of a missing member on the fly. */
    method ReconstructBlock(loc: DiskBlockLocation, count: nat) returns (r: Result<seq<byte>, IoError>)
      requires Valid() && count != 0 && IsDataLocation(loc) && members[loc.memberIdx].None?
      ensures IsColumnBlock(r, loc, count)
    {
      match geometry.level
      case Raid0 =>
        Raid0Complete(this, loc.memberIdx);
        r := Err(ReadFailure);
      case Raid5 =>
        NeededBlocks(this, loc, count);
        OneMissing(this, loc);
        r := XorOthers(loc, count, {loc.memberIdx});
      case Raid6 =>
        r := ReconstructRaid6Block(loc, count);
    }

    /** One piece of a read: straight from the member, or rebuilt when the member is missing. */
    method ReadPiece(loc: DiskBlockLocation, count: nat) returns (r: Result<seq<byte>, IoError>)
      requires Valid() && count != 0 && IsDataLocation(loc)
      ensures IsColumnBlock(r, loc, count)
    {
      DataMemberSound(geometry, loc.stripeRow, loc.dataCol);
      match members[loc.memberIdx]
      case Some(member) =>
        r := member.Read(geometry.sectorSize, loc.memberLba, count);
        DirectBlock(this, loc, count, r);
      case None =>
        r := ReconstructBlock(loc, count);
    }

    /** Splits the request at chunk ends and reads each piece. */
    method ReadBlocks(start: nat, count: nat) returns (r: Result<seq<byte>, IoError>)
      requires Valid()
      ensures r == ReadResult(start, count)
      ensures r == Err(OutOfBounds) <==>
        start + count != 0 && !geometry.RowFits(geometry.MapLba(start + count - 1).stripeRow)
    {
      if start + count != 0 {
        InArrayIff(geometry, start + count - 1);
      }
      hide RaidGeometry.RowFits, RaidGeometry.MapLba, RaidArray.IsColumnBlock, RaidArray.ByteAt,
        RaidArray.LbaReadable, RaidArray.LogicalByte,
        RaidGeometry.DataMember, RaidGeometry.TotalLogicalSectors, RaidGeometry.ChunkSectors;
      if start + count > totalLogicalBlocks {
        return Err(OutOfBounds);
      }
      var result: seq<byte> := [];
      var curLba, remaining := start, count;
      var chunkSec := geometry.ChunkSectors();

      while remaining > 0
        invariant curLba + remaining == start + count <= totalLogicalBlocks
        invariant start <= curLba && 0 <= remaining
        invariant forall lba | start <= lba < curLba :: LbaReadable(lba)
        invariant result == LogicalBytes(start, curLba - start)
        decreases remaining
      {
        var loc := geometry.MapLba(curLba);
        var sectorsToChunkEnd := chunkSec - loc.offsetInChunk;
        var takeSectors := if remaining < sectorsToChunkEnd then remaining else sectorsToChunkEnd;
        assert takeSectors > 0 by { MapLbaBounds(geometry, curLba); }
        ChunkPiece(this, curLba, takeSectors);

        var chunkData := ReadPiece(loc, takeSectors);
        PieceRead(this, start, curLba, takeSectors, chunkData);
        if chunkData.Err? {
          return Err(ReadFailure);
        }
        result := result + chunkData.value;
        curLba := curLba + takeSectors;
        remaining := remaining - takeSectors;
      }
      r := Ok(result);
    }
  }

  lemma NoMembers(a: RaidArray, skip: set<nat>)
    ensures forall o: nat :: ColumnSum(false, Select(a.MemberColumns()[..0], skip, false), o) == 0
  {}

  lemma NextMember(a: RaidArray, i: nat, skip: set<nat>)
    requires i < |a.members|
    ensures var before := Select(a.MemberColumns()[..i], skip, false);
      var after := Select(a.MemberColumns()[..i + 1], skip, false);
      if i in skip then after == before
      else forall o: nat ::
        ColumnSum(false, after, o) == BXor(ColumnSum(false, before, o), Times(1, At(a.MemberBytes(i), o)))
  {
    var cols := a.MemberColumns();
    assert cols[..i + 1][..i] == cols[..i];
    var before := Select(cols[..i], skip, false);
    if i !in skip {
      forall o: nat {
        SumAppend(false, before, cols[i], o);
      }
    }
  }

  /** Blocks that hold, column by column, the bytes of `full` from byte `base` on. */
  ghost predicate SameBytes(blocks: seq<Column>, full: seq<Column>, base: nat, len: nat) {
    && |blocks| == |full|
    && forall k | 0 <= k < |full| ::
      blocks[k].idx == full[k].idx && |blocks[k].block| == len
      && forall b | 0 <= b < len :: At(blocks[k].block, b) == At(full[k].block, base + b)
  }

  lemma {:induction false} SameSum(isQ: bool, blocks: seq<Column>, full: seq<Column>, base: nat, len: nat, b: nat)
    requires SameBytes(blocks, full, base, len) && b < len
    ensures ColumnSum(isQ, blocks, b) == ColumnSum(isQ, full, base + b)
  {
    var n := |full|;
    if n != 0 {
      SameSum(isQ, blocks[..n - 1], full[..n - 1], base, len, b);
    }
  }

  lemma SameFromP(a: RaidArray, intact: seq<Column>, full: seq<Column>, pBlock: seq<byte>, p: nat, base: nat, len: nat)
    requires SameBytes(intact, full, base, len) && a.IsBlockOf(pBlock, p, base, len)
    ensures forall b | 0 <= b < len :: MissingFromP(intact, pBlock, b) == MissingFromP(full, a.MemberBytes(p), base + b)
  {
    forall b | 0 <= b < len {
      SameSum(false, intact, full, base, len, b);
    }
  }

  lemma SameFromQ(a: RaidArray, intact: seq<Column>, full: seq<Column>, qBlock: seq<byte>, q: nat, x: nat, base: nat,
                  len: nat)
    requires a.galois.Valid() && SameBytes(intact, full, base, len) && a.IsBlockOf(qBlock, q, base, len)
    ensures forall b | 0 <= b < len ::
      MissingFromQ(a.galois, intact, qBlock, x, b) == MissingFromQ(a.galois, full, a.MemberBytes(q), x, base + b)
  {
    hide ColumnSum, Times, BXor;
    forall b | 0 <= b < len {
      SameSum(true, intact, full, base, len, b);
    }
  }

  lemma SamePair(a: RaidArray, intact: seq<Column>, full: seq<Column>, pBlock: seq<byte>, qBlock: seq<byte>,
                 p: nat, q: nat, x: nat, y: nat, base: nat, len: nat)
    requires a.galois.Valid() && SameBytes(intact, full, base, len)
    requires a.IsBlockOf(pBlock, p, base, len) && a.IsBlockOf(qBlock, q, base, len)
    ensures forall b | 0 <= b < len ::
      MissingPair(a.galois, intact, pBlock, qBlock, x, y, b)
      == MissingPair(a.galois, full, a.MemberBytes(p), a.MemberBytes(q), x, y, base + b)
  {
    hide ColumnSum, Times, BXor;
    forall b | 0 <= b < len
      ensures MissingPair(a.galois, intact, pBlock, qBlock, x, y, b)
           == MissingPair(a.galois, full, a.MemberBytes(p), a.MemberBytes(q), x, y, base + b)
    {
      SameSum(false, intact, full, base, len, b);
      SameSum(true, intact, full, base, len, b);
    }
  }

  /** Reading all sectors of a block on all needed members is reading each sector of the column. */
  lemma NeededBlocks(a: RaidArray, loc: DiskBlockLocation, count: nat)
    requires a.geometry.Valid() && count != 0
    ensures (forall i | i in a.Needed(loc.stripeRow, loc.dataCol) :: a.BlockReadable(i, loc.memberLba, count)) <==>
      forall s | loc.memberLba <= s < loc.memberLba + count :: a.SectorReadable(loc.stripeRow, loc.dataCol, s)
  {
    hide RaidArray.Needed;
    var needed := a.Needed(loc.stripeRow, loc.dataCol);
    if forall s | loc.memberLba <= s < loc.memberLba + count :: a.SectorReadable(loc.stripeRow, loc.dataCol, s) {
      forall i | i in needed
        ensures a.BlockReadable(i, loc.memberLba, count)
      {
        assert a.SectorReadable(loc.stripeRow, loc.dataCol, loc.memberLba) && a.MemberSectorOk(i, loc.memberLba);
        forall s | loc.memberLba <= s < loc.memberLba + count
          ensures a.members[i].value.SectorOk(a.geometry.sectorSize, s)
        {
          assert a.SectorReadable(loc.stripeRow, loc.dataCol, s) && a.MemberSectorOk(i, s);
        }
      }
    }
  }

  /** A block read straight from its member is the column's block. */
  lemma DirectBlock(a: RaidArray, loc: DiskBlockLocation, count: nat, r: Result<seq<byte>, IoError>)
    requires a.Valid() && count != 0 && a.IsDataLocation(loc)
    requires a.members[loc.memberIdx].Some?
    requires r == a.members[loc.memberIdx].value.Read(a.geometry.sectorSize, loc.memberLba, count)
    ensures a.IsColumnBlock(r, loc, count)
  {
    DataMemberSound(a.geometry, loc.stripeRow, loc.dataCol);
    hide Disk.Read, RaidGeometry.DataMember;
    NeededBlocks(a, loc, count);
    assert a.Needed(loc.stripeRow, loc.dataCol) == {loc.memberIdx};
    assert r.Ok? <==> a.BlockReadable(loc.memberIdx, loc.memberLba, count);
  }

  lemma Raid0Complete(a: RaidArray, i: nat)
    requires a.Valid() && a.geometry.level.Raid0? && i < |a.members|
    ensures a.members[i].Some?
  {
    SubsetFull({}, a.Missing());
    assert i !in a.Missing();
  }

  lemma OneMissing(a: RaidArray, loc: DiskBlockLocation)
    requires a.Valid() && a.geometry.level.Raid5? && a.IsDataLocation(loc) && a.members[loc.memberIdx].None?
    ensures a.Missing() == {loc.memberIdx}
    ensures a.Needed(loc.stripeRow, loc.dataCol) == a.Present()
    ensures forall i | 0 <= i < |a.members| :: i in a.Present() <==> i != loc.memberIdx
  {
    assert loc.memberIdx in a.Missing();
    SubsetFull({loc.memberIdx}, a.Missing());
    forall i | 0 <= i < |a.members| && i != loc.memberIdx
      ensures a.members[i].Some?
    {
      assert a.members[i].None? ==> i in a.Missing();
    }
  }

  // ----- cutting a read at the chunk ends

  /** A piece of `take` sectors that starts at `lba` and stays inside one chunk. */
  ghost predicate IsPiece(a: RaidArray, lba: nat, take: nat) {
    && a.Valid() && take != 0 && lba + take <= a.totalLogicalBlocks
    && take <= a.geometry.ChunkSectors() - a.geometry.MapLba(lba).offsetInChunk
  }

  function Shifted(loc: DiskBlockLocation, k: nat): DiskBlockLocation {
    loc.(memberLba := loc.memberLba + k, offsetInChunk := loc.offsetInChunk + k)
  }

  /** The sectors of a piece are consecutive on one member of one row. */
  lemma ChunkPiece(a: RaidArray, lba: nat, take: nat)
    requires IsPiece(a, lba, take)
    ensures a.IsDataLocation(a.geometry.MapLba(lba)) && a.geometry.MapLba(lba).memberIdx < |a.members|
    ensures forall l | lba <= l < lba + take :: a.geometry.MapLba(l) == Shifted(a.geometry.MapLba(lba), l - lba)
  {
    hide RaidGeometry.ChunkSectors, RaidGeometry.DataMember, RaidGeometry.TotalLogicalSectors;
    var g := a.geometry;
    MapLbaBounds(g, lba);
    DataMemberSound(g, g.MapLba(lba).stripeRow, g.MapLba(lba).dataCol);
    forall l | lba <= l < lba + take
      ensures g.MapLba(l) == Shifted(g.MapLba(lba), l - lba)
    {
      ChunkNeighbour(g, lba, l - lba);
    }
  }

  lemma ChunkNeighbour(g: RaidGeometry, lba: nat, k: nat)
    requires g.Valid() && lba % g.ChunkSectors() + k < g.ChunkSectors()
    ensures (lba + k) / g.ChunkSectors() == lba / g.ChunkSectors()
    ensures (lba + k) % g.ChunkSectors() == lba % g.ChunkSectors() + k
  {
    hide RaidGeometry.ChunkSectors;
    DivModAdvance(lba, g.ChunkSectors(), k);
  }

  lemma PieceReadable(a: RaidArray, lba: nat, take: nat)
    requires IsPiece(a, lba, take)
    ensures var loc := a.geometry.MapLba(lba);
      (forall s | loc.memberLba <= s < loc.memberLba + take :: a.SectorReadable(loc.stripeRow, loc.dataCol, s)) <==>
      forall l | lba <= l < lba + take :: a.LbaReadable(l)
  {
    ChunkPiece(a, lba, take);
    hide RaidArray.SectorReadable, RaidGeometry.MapLba, RaidGeometry.ChunkSectors, RaidGeometry.TotalLogicalSectors;
    var loc := a.geometry.MapLba(lba);
    if forall l | lba <= l < lba + take :: a.LbaReadable(l) {
      forall s | loc.memberLba <= s < loc.memberLba + take
        ensures a.SectorReadable(loc.stripeRow, loc.dataCol, s)
      {
        assert a.LbaReadable(lba + (s - loc.memberLba));
      }
    }
    if forall s | loc.memberLba <= s < loc.memberLba + take :: a.SectorReadable(loc.stripeRow, loc.dataCol, s) {
      forall l | lba <= l < lba + take
        ensures a.LbaReadable(l)
      {
        assert a.SectorReadable(loc.stripeRow, loc.dataCol, loc.memberLba + (l - lba));
      }
    }
  }

  /** Byte `o` of the sector that lies `k` sectors after `loc`, at byte `at` of its member. */
  lemma SectorByteAt(a: RaidArray, lba: nat, loc: DiskBlockLocation, k: nat, o: nat, at: nat)
    requires a.geometry.Valid() && a.galois.Valid() && a.geometry.MapLba(lba) == Shifted(loc, k)
    requires at == (loc.memberLba + k) * a.geometry.sectorSize + o
    ensures a.LogicalByte(lba, o) == a.ByteAt(loc.stripeRow, loc.dataCol, at)
  {
    hide RaidArray.ByteAt, RaidGeometry.MapLba, RaidGeometry.Valid, GaloisField.Valid;
  }

  /** Byte `b` of a piece is a byte of the sector that contains it. */
  lemma PieceByte(a: RaidArray, lba: nat, take: nat, b: nat)
    requires IsPiece(a, lba, take)
    requires b < take * a.geometry.sectorSize
    ensures var loc := a.geometry.MapLba(lba);
      IsSectorByte(a, lba, b, a.ByteAt(loc.stripeRow, loc.dataCol, loc.memberLba * a.geometry.sectorSize + b))
  {
    hide *;
    PieceIsValid(a, lba, take);
    ChunkPiece(a, lba, take);
    var loc, size := a.geometry.MapLba(lba), a.geometry.sectorSize;
    var k, o := SplitOffset(loc.memberLba, size, take, b);
    SectorByteAt(a, lba + k, loc, k, o, loc.memberLba * size + b);
    AsSectorByte(a, lba, b, k, o);
  }

  lemma PieceIsValid(a: RaidArray, lba: nat, take: nat)
    requires IsPiece(a, lba, take)
    ensures a.geometry.Valid() && a.galois.Valid() && a.geometry.sectorSize != 0
  {}

  lemma AsSectorByte(a: RaidArray, first: nat, b: nat, k: nat, o: nat)
    requires a.geometry.Valid() && a.galois.Valid() && a.geometry.sectorSize != 0
    requires k == b / a.geometry.sectorSize && o == b % a.geometry.sectorSize
    ensures IsSectorByte(a, first, b, a.LogicalByte(first + k, o))
  {
    hide RaidArray.LogicalByte;
  }

  lemma SplitOffset(lba: nat, size: nat, take: nat, b: nat) returns (k: nat, o: nat)
    requires size != 0 && b < take * size
    ensures k == b / size < take && o == b % size
    ensures (lba + k) * size + o == lba * size + b
  {
    k, o := b / size, b % size;
    DivBelow(b, size, take);
    assert (lba + k) * size == lba * size + k * size;
  }

  /** `v` is byte `b` of the array sectors from `first` on. */
  ghost predicate IsSectorByte(a: RaidArray, first: nat, b: nat, v: byte) {
    && a.geometry.Valid() && a.galois.Valid()
    && v == a.LogicalByte(first + b / a.geometry.sectorSize, b % a.geometry.sectorSize)
  }

  ghost predicate SectorBytes(a: RaidArray, first: nat, bytes: seq<byte>) {
    forall b | 0 <= b < |bytes| :: IsSectorByte(a, first, b, bytes[b])
  }

  lemma PieceBytes(a: RaidArray, lba: nat, take: nat, piece: seq<byte>)
    requires IsPiece(a, lba, take)
    requires |piece| == take * a.geometry.sectorSize
    requires var loc := a.geometry.MapLba(lba);
      forall b | 0 <= b < |piece| ::
        piece[b] == a.ByteAt(loc.stripeRow, loc.dataCol, loc.memberLba * a.geometry.sectorSize + b)
    ensures SectorBytes(a, lba, piece)
  {
    hide RaidArray.ByteAt, RaidGeometry.MapLba, RaidArray.Valid, IsPiece, IsSectorByte;
    forall b | 0 <= b < |piece|
      ensures IsSectorByte(a, lba, b, piece[b])
    {
      PieceByte(a, lba, take, b);
    }
  }

  /** The two outcomes of reading a piece, in terms of array sectors. */
  lemma PieceRead(a: RaidArray, start: nat, lba: nat, take: nat, r: Result<seq<byte>, IoError>)
    requires IsPiece(a, lba, take) && start <= lba
    requires a.IsColumnBlock(r, a.geometry.MapLba(lba), take)
    ensures r.Ok? <==> forall l | lba <= l < lba + take :: a.LbaReadable(l)
    ensures r.Ok? ==> a.LogicalBytes(start, lba - start) + r.value == a.LogicalBytes(start, lba + take - start)
  {
    hide RaidArray.ByteAt, RaidArray.LbaReadable, RaidArray.LogicalByte, RaidArray.SectorReadable,
      RaidArray.LogicalBytes, RaidGeometry.MapLba;
    PieceReadable(a, lba, take);
    if r.Ok? {
      PieceBytes(a, lba, take, r.value);
      AppendBytes(a, start, lba - start, take, r.value);
    }
  }

  lemma AppendByte(a: RaidArray, start: nat, m: nat, k: nat, tail: seq<byte>, i: nat)
    requires a.geometry.Valid() && a.galois.Valid()
    requires SectorBytes(a, start + m, tail) && |tail| == k * a.geometry.sectorSize
    requires |a.LogicalBytes(start, m)| <= i < |a.LogicalBytes(start, m + k)|
    ensures 0 <= i - |a.LogicalBytes(start, m)| < |tail|
    ensures a.LogicalBytes(start, m + k)[i] == tail[i - |a.LogicalBytes(start, m)|]
  {
    hide RaidArray.LogicalByte;
    var size := a.geometry.sectorSize;
    assert (m + k) * size == m * size + k * size;
    SkipSectors(m, size, i - m * size);
    assert IsSectorByte(a, start + m, i - m * size, tail[i - m * size]);
  }

  lemma AppendBytes(a: RaidArray, start: nat, m: nat, k: nat, tail: seq<byte>)
    requires a.geometry.Valid() && a.galois.Valid()
    requires SectorBytes(a, start + m, tail) && |tail| == k * a.geometry.sectorSize
    ensures a.LogicalBytes(start, m) + tail == a.LogicalBytes(start, m + k)
  {
    var head, whole := a.LogicalBytes(start, m), a.LogicalBytes(start, m + k);
    hide RaidArray.LogicalBytes, SectorBytes, RaidGeometry.Valid;
    MulSum(m, k, a.geometry.sectorSize);
    assert |head + tail| == |whole|;
    forall i | 0 <= i < |whole|
      ensures whole[i] == (head + tail)[i]
    {
      if i >= |head| {
        AppendByte(a, start, m, k, tail, i);
      }
    }
  }

  lemma SkipSectors(m: nat, size: nat, b: nat)
    requires size != 0
    ensures (m * size + b) / size == m + b / size && (m * size + b) % size == b % size
  {
    assert m * size + b == (m + b / size) * size + b % size;
    DivModUnique(m + b / size, size, b % size);
  }

  // ----- which columns of a row are lost

  lemma SubsetFull(a: set<nat>, b: set<nat>)
    requires a <= b && |b| <= |a|
    ensures a == b
  {
    assert b == a + (b - a);
  }

  lemma PairSet(s: set<nat>, x: nat, y: nat)
    requires x in s && y in s && x != y && |s| <= 2
    ensures s == {x, y}
  {
    SubsetFull({x, y}, s);
  }

  lemma SingletonSet(s: set<nat>, x: nat)
    requires x in s
    ensures |s| == 1 <==> s == {x}
  {
    if |s| == 1 {
      SubsetFull({x}, s);
    }
  }

  ghost predicate Increasing(s: seq<nat>) {
    forall i, j | 0 <= i < j < |s| :: s[i] < s[j]
  }

  lemma {:induction false} LostColumnsSorted(a: RaidArray, row: nat, n: nat)
    requires a.geometry.Valid()
    ensures Increasing(a.LostColumns(row, n))
  {
    hide RaidArray.ColumnLost;
    if n != 0 {
      LostColumnsSorted(a, row, n - 1);
      var front := a.LostColumns(row, n - 1);
      forall i | 0 <= i < |front|
        ensures front[i] < n - 1
      {
        assert front[i] in front;
      }
    }
  }

  lemma SortedPair(s: seq<nat>, x: nat, y: nat)
    requires Increasing(s)
    requires forall c: nat :: c in s <==> c == x || c == y
    ensures x == y ==> s == [x]
    ensures x < y ==> s == [x, y]
  {
    assert x in s && y in s;
    if |s| >= 3 {
      assert s[0] in s && s[1] in s && s[2] in s;
    }
    if |s| >= 2 {
      assert s[0] in s && s[1] in s;
    }
  }

  lemma LostColumnsAre(a: RaidArray, row: nat, x: nat, y: nat)
    requires a.Valid() && x < a.geometry.DataDisks() && y < a.geometry.DataDisks() && x <= y
    requires forall c | 0 <= c < a.geometry.DataDisks() :: a.ColumnLost(row, c) <==> c == x || c == y
    ensures a.LostColumns(row, a.geometry.DataDisks()) == if x == y then [x] else [x, y]
  {
    hide RaidArray.ColumnLost, RaidArray.LostColumns;
    LostColumnsSorted(a, row, a.geometry.DataDisks());
    SortedPair(a.LostColumns(row, a.geometry.DataDisks()), x, y);
  }

  /** With a data member lost, at most one other member is: P, Q or one more data column. */
  lemma LostDataMember(a: RaidArray, row: nat, col: nat)
    requires a.Valid() && a.geometry.level.Raid6? && col < a.geometry.DataDisks() && a.ColumnLost(row, col)
    ensures var m, p, q := a.geometry.DataMember(row, col), a.geometry.ParityP(row), a.geometry.ParityQ(row);
      var lost := a.LostColumns(row, a.geometry.DataDisks());
      && m != p && m != q && p != q
      && (|a.Missing()| == 1 <==> a.Missing() == {m})
      && (p in a.Missing() ==> a.Missing() == {m, p} && lost == [col])
      && (q in a.Missing() ==> a.Missing() == {m, q} && lost == [col])
      && (a.Missing() != {m} && p !in a.Missing() && q !in a.Missing() ==>
            |lost| == 2 && lost[0] < lost[1] < a.geometry.DataDisks() && col in lost)
  {
    hide RaidGeometry.MapRaid6Member, RaidGeometry.ParityP;
    var g, missing := a.geometry, a.Missing();
    var m, p, q := g.DataMember(row, col), g.ParityP(row), g.ParityQ(row);
    ParityDistinct(g, row);
    DataMemberSound(g, row, col);
    SingletonSet(missing, m);
    forall c | 0 <= c < g.DataDisks()
      ensures g.DataMember(row, c) == m <==> c == col
      ensures g.DataMember(row, c) != p && g.DataMember(row, c) != q
    {
      DataMemberSound(g, row, c);
    }
    if p in missing || q in missing {
      PairSet(missing, m, if p in missing then p else q);
      LostColumnsAre(a, row, col, col);
    } else if missing != {m} {
      var m2 :| m2 in missing && m2 != m;
      PairSet(missing, m, m2);
      DataMemberComplete(g, row, m2);
      var c2 := g.ColumnOf(row, m2);
      forall c | 0 <= c < g.DataDisks()
        ensures g.DataMember(row, c) == m2 <==> c == c2
      {
        DataMemberSound(g, row, c);
      }
      LostColumnsAre(a, row, if col < c2 then col else c2, if col < c2 then c2 else col);
    }
  }
}
