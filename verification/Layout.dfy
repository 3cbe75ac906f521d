/** RAID geometry: where parity lives, and which member sector holds each array sector. */
module Layout {
  import opened Arithmetic
  import opened Bits
  import opened Wrappers

  datatype RaidLevel = Raid0 | Raid5 | Raid6

  datatype ParityLayout = LeftSymmetric | LeftAsymmetric | RightSymmetric | RightAsymmetric

  datatype GeometryError = InvalidChunkSize | InvalidGeometry

  datatype DiskBlockLocation = DiskBlockLocation(
    stripeRow: nat, dataCol: nat, memberIdx: nat, memberLba: nat, offsetInChunk: nat)

  function MinMembers(level: RaidLevel): nat {
    match level
    case Raid0 => 2
    case Raid5 => 3
    case Raid6 => 4
  }

  function ParityCount(level: RaidLevel): nat {
    match level
    case Raid0 => 0
    case Raid5 => 1
    case Raid6 => 2
  }

  datatype RaidGeometry = RaidGeometry(
    level: RaidLevel, layout: ParityLayout, numMembers: nat, chunkSizeBytes: nat, sectorSize: nat,
    dataOffsetSectors: nat, memberCapacitySectors: nat)
  {
    /** What `New` guarantees of every geometry it returns. */
    predicate Valid() {
      && chunkSizeBytes != 0 && sectorSize != 0 && Divides(sectorSize, chunkSizeBytes)
      && numMembers >= MinMembers(level)
    }

    static function New(level: RaidLevel, layout: ParityLayout, numMembers: nat, chunkSizeBytes: nat, sectorSize: nat,
                        dataOffsetSectors: nat, memberCapacitySectors: nat): (r: Result<RaidGeometry, GeometryError>)
      ensures r.Ok? ==> r.value.Valid()
      ensures r.Ok? <==>
        && (exists k: nat :: chunkSizeBytes == Pow2(k)) && sectorSize != 0 && chunkSizeBytes % sectorSize == 0
        && numMembers >= 2 && (level.Raid5? ==> numMembers >= 3) && (level.Raid6? ==> numMembers >= 4)
      ensures r == Err(InvalidChunkSize) <==> !exists k: nat :: chunkSizeBytes == Pow2(k)
    {
      NewAccepts(chunkSizeBytes, sectorSize);
      if chunkSizeBytes == 0 || And(chunkSizeBytes, chunkSizeBytes - 1) != 0 then
        Err(InvalidChunkSize)
      else if sectorSize == 0 || chunkSizeBytes % sectorSize != 0 then
        Err(InvalidGeometry)
      else if numMembers < MinMembers(level) then
        Err(InvalidGeometry)
      else
        Ok(RaidGeometry(level, layout, numMembers, chunkSizeBytes, sectorSize, dataOffsetSectors,
                        memberCapacitySectors))
    }

    function ChunkSectors(): (r: nat)
      requires Valid()
      ensures r > 0
    {
      DividesIsMod(sectorSize, chunkSizeBytes);
      chunkSizeBytes / sectorSize
    }

    function DataDisks(): (r: nat)
      requires Valid()
      ensures r == numMembers - ParityCount(level) && r >= 2
    {
      match level
      case Raid0 => numMembers
      case Raid5 => numMembers - 1
      case Raid6 => numMembers - 2
    }

    /** Full stripe rows on every member, after the data offset. */
    function StripeRows(): nat
      requires Valid()
    {
      var usable := if memberCapacitySectors >= dataOffsetSectors then memberCapacitySectors - dataOffsetSectors else 0;
      usable / ChunkSectors()
    }

    /** The chunks of the row lie within the members. */
    predicate RowFits(row: nat)
      requires Valid()
    {
      dataOffsetSectors + (row + 1) * ChunkSectors() <= memberCapacitySectors
    }

    function TotalLogicalSectors(): nat
      requires Valid()
    {
      StripeRows() * ChunkSectors() * DataDisks()
    }

    function ParityP(stripeRow: nat): (p: nat)
      requires Valid()
      ensures p < numMembers
    {
      var n := numMembers;
      match level
      case Raid0 => 0
      case Raid5 =>
        if layout.LeftSymmetric? || layout.LeftAsymmetric? then (n - 1 - stripeRow % n) % n else stripeRow % n
      case Raid6 =>
        if layout.LeftSymmetric? || layout.LeftAsymmetric? then
          var p := n - 2 - stripeRow % n;
          (if p < 0 then p + n else p) % n
        else stripeRow % n
    }

    function ParityQ(stripeRow: nat): (q: nat)
      requires Valid()
      ensures q < numMembers
    {
      (ParityP(stripeRow) + 1) % numMembers
    }

    /** The normalising loop of the left layouts, which the function above unrolls. */
    method LeftParityP(stripeRow: nat) returns (r: nat)
      requires Valid() && level == Raid6 && (layout.LeftSymmetric? || layout.LeftAsymmetric?)
      ensures r == ParityP(stripeRow)
    {
      var raw := stripeRow % numMembers;
      var p: int := numMembers - 2 - raw;
      while p < 0
        invariant p == numMembers - 2 - raw || p == 2 * numMembers - 2 - raw
        invariant -1 <= p < numMembers
      {
        p := p + numMembers;
      }
      r := p % numMembers;
    }

    function MapRaid5Member(stripeRow: nat, dataCol: nat): nat
      requires Valid() && level == Raid5
    {
      var p := ParityP(stripeRow);
      if layout.LeftSymmetric? || layout.RightSymmetric? then (p + 1 + dataCol) % numMembers
      else if dataCol < p then dataCol else dataCol + 1
    }

    function MapRaid6Member(stripeRow: nat, dataCol: nat): nat
      requires Valid() && level == Raid6
    {
      var p := ParityP(stripeRow);
      var q := (p + 1) % numMembers;
      if layout.LeftSymmetric? || layout.RightSymmetric? then (q + 1 + dataCol) % numMembers
      else
        var lo, hi := if p < q then p else q, if p < q then q else p;
        var idx := if dataCol >= lo then dataCol + 1 else dataCol;
        (if idx >= hi then idx + 1 else idx) % numMembers
    }

    /** The member that holds a data column of a stripe row. */
    function DataMember(stripeRow: nat, dataCol: nat): nat
      requires Valid()
    {
      match level
      case Raid0 => dataCol
      case Raid5 => MapRaid5Member(stripeRow, dataCol)
      case Raid6 => MapRaid6Member(stripeRow, dataCol)
    }

    function MapLba(arrayLba: nat): DiskBlockLocation
      requires Valid()
    {
      hide RaidGeometry.ChunkSectors, RaidGeometry.DataDisks, RaidGeometry.DataMember;
      var chunkIdx := arrayLba / ChunkSectors();
      var offsetInChunk := arrayLba % ChunkSectors();
      var stripeRow := chunkIdx / DataDisks();
      var dataCol := chunkIdx % DataDisks();
      DiskBlockLocation(stripeRow, dataCol, DataMember(stripeRow, dataCol),
                        dataOffsetSectors + stripeRow * ChunkSectors() + offsetInChunk, offsetInChunk)
    }

    /** The members of a row that hold parity. */
    function ParityMembers(stripeRow: nat): set<nat>
      requires Valid()
    {
      match level
      case Raid0 => {}
      case Raid5 => {ParityP(stripeRow)}
      case Raid6 => {ParityP(stripeRow), ParityQ(stripeRow)}
    }

    // ----- the inverse of the mapping

    /** The data column stored on a member that holds no parity in this row. */
    function ColumnOf(stripeRow: nat, member: nat): int
      requires Valid()
    {
      var n := numMembers;
      var p, q := ParityP(stripeRow), ParityQ(stripeRow);
      var symmetric := layout.LeftSymmetric? || layout.RightSymmetric?;
      match level
      case Raid0 => member
      case Raid5 =>
        if symmetric then (if member > p then member - p - 1 else member + n - p - 1)
        else if member < p then member else member - 1
      case Raid6 =>
        if symmetric then (if member > q then member - q - 1 else member + n - q - 1)
        else member - (if member > p then 1 else 0) - (if member > q then 1 else 0)
    }

    /** A slot holds data when it lies in a row that fits and its member holds no parity in that row. */
    predicate IsDataSlot(member: nat, sector: nat)
      requires Valid()
    {
      hide RaidGeometry.ChunkSectors, RaidGeometry.ParityMembers, RaidGeometry.RowFits;
      && member < numMembers && dataOffsetSectors <= sector
      && RowFits((sector - dataOffsetSectors) / ChunkSectors())
      && member !in ParityMembers((sector - dataOffsetSectors) / ChunkSectors())
    }

    /** The array sector stored on a member `rel` sectors behind the data offset. */
    function LbaAt(member: nat, rel: nat): int
      requires Valid()
    {
      hide RaidGeometry.ChunkSectors, RaidGeometry.ColumnOf, RaidGeometry.DataDisks;
      var row: nat, offset: nat := rel / ChunkSectors(), rel % ChunkSectors();
      (row * DataDisks() + ColumnOf(row, member)) * ChunkSectors() + offset
    }

    function UnmapSlot(member: nat, sector: nat): int
      requires Valid() && IsDataSlot(member, sector)
    {
      LbaAt(member, sector - dataOffsetSectors)
    }
  }

  lemma ChunkBytes(g: RaidGeometry)
    requires g.Valid()
    ensures g.ChunkSectors() * g.sectorSize == g.chunkSizeBytes
  {
    DividesIsMod(g.sectorSize, g.chunkSizeBytes);
  }

  // ----- within one stripe row

  lemma ParityDistinct(g: RaidGeometry, row: nat)
    requires g.Valid()
    ensures g.ParityP(row) != g.ParityQ(row)
    ensures g.ParityQ(row) == if g.ParityP(row) + 1 == g.numMembers then 0 else g.ParityP(row) + 1
  {
    ModWrap(g.ParityP(row) + 1, g.numMembers);
  }

  /** From row to row parity moves by one member: to the left from the last, or to the right from the first. */
  lemma ParityRotates(g: RaidGeometry, row: nat)
    requires g.Valid() && !g.level.Raid0?
    ensures var left := g.layout.LeftSymmetric? || g.layout.LeftAsymmetric?;
      && g.ParityP(0) == (if left then g.numMembers - ParityCount(g.level) else 0)
      && (left ==> g.ParityP(row) == if g.ParityP(row + 1) + 1 == g.numMembers then 0 else g.ParityP(row + 1) + 1)
      && (!left ==> g.ParityP(row + 1) == if g.ParityP(row) + 1 == g.numMembers then 0 else g.ParityP(row) + 1)
  {
    var n := g.numMembers;
    NextRemainder(row, n);
    var r, r' := row % n, (row + 1) % n;
    ModWrap(0, n);
    if g.level.Raid5? {
      ModWrap(n - 1 - r, n);
      ModWrap(n - 1 - r', n);
      ModWrap(n - 1, n);
    } else {
      ModWrap(if n - 2 - r < 0 then 2 * n - 2 - r else n - 2 - r, n);
      ModWrap(if n - 2 - r' < 0 then 2 * n - 2 - r' else n - 2 - r', n);
      ModWrap(n - 2, n);
    }
  }

  lemma NextRemainder(x: nat, n: nat)
    requires n != 0
    ensures (x + 1) % n == if x % n + 1 < n then x % n + 1 else 0
  {
    if x % n + 1 < n {
      DivModAdvance(x, n, 1);
    } else {
      DivModIs(x + 1, n, (x + 1) / n, (x + 1) % n, x / n + 1, 0);
    }
  }

  predicate IsSymmetric(layout: ParityLayout) {
    layout.LeftSymmetric? || layout.RightSymmetric?
  }

  /** Without parity column `c` lies on member `c`. */
  lemma Raid0Order(g: RaidGeometry, row: nat, col: nat)
    requires g.Valid() && g.level.Raid0? && col < g.DataDisks()
    ensures g.DataDisks() == g.numMembers && g.DataMember(row, col) == col && g.ParityP(row) == 0
  {}

  /** Symmetric layouts start behind the parity and go round. */
  lemma SymmetricOrder(g: RaidGeometry, row: nat, col: nat)
    requires g.Valid() && !g.level.Raid0? && IsSymmetric(g.layout) && col + 1 < g.DataDisks()
    ensures var a, b := g.DataMember(row, col), g.DataMember(row, col + 1);
      b == if a + 1 == g.numMembers then 0 else a + 1
    ensures g.DataMember(row, 0) == ((if g.level.Raid6? then g.ParityQ(row) else g.ParityP(row)) + 1) % g.numMembers
  {
    var last := if g.level.Raid6? then g.ParityQ(row) else g.ParityP(row);
    hide RaidGeometry.ParityP;
    ModWrap(last + 1 + col, g.numMembers);
    ModWrap(last + 2 + col, g.numMembers);
  }

  /** Asymmetric layouts go up. */
  lemma AsymmetricOrder(g: RaidGeometry, row: nat, col: nat)
    requires g.Valid() && !g.level.Raid0? && !IsSymmetric(g.layout) && col + 1 < g.DataDisks()
    ensures g.DataMember(row, col) < g.DataMember(row, col + 1)
  {
    ParityDistinct(g, row);
    hide RaidGeometry.ParityP;
    if g.level.Raid6? {
      ModWrap(col, g.numMembers);
      ModWrap(col + 1, g.numMembers);
      ModWrap(col + 2, g.numMembers);
      ModWrap(col + 3, g.numMembers);
    }
  }

  /** A data column lands on a member, on neither parity member, and can be read back from the member. */
  lemma DataMemberSound(g: RaidGeometry, row: nat, col: nat)
    requires g.Valid() && col < g.DataDisks()
    ensures g.DataMember(row, col) < g.numMembers
    ensures g.DataMember(row, col) !in g.ParityMembers(row)
    ensures g.ColumnOf(row, g.DataMember(row, col)) == col
  {
    ParityDistinct(g, row);
    match g.level
    case Raid0 =>
    case Raid5 =>
      ModWrap(g.ParityP(row) + 1 + col, g.numMembers);
    case Raid6 =>
      ModWrap(g.ParityQ(row) + 1 + col, g.numMembers);
      ModWrap(g.DataMember(row, col), g.numMembers);
      if !(g.layout.LeftSymmetric? || g.layout.RightSymmetric?) {
        ModWrap(col, g.numMembers);
        ModWrap(col + 1, g.numMembers);
        ModWrap(col + 2, g.numMembers);
      }
  }

  /** Every member without parity holds a data column. */
  lemma DataMemberComplete(g: RaidGeometry, row: nat, member: nat)
    requires g.Valid() && member < g.numMembers && member !in g.ParityMembers(row)
    ensures 0 <= g.ColumnOf(row, member) < g.DataDisks()
    ensures g.DataMember(row, g.ColumnOf(row, member)) == member
  {
    ParityDistinct(g, row);
    var col := g.ColumnOf(row, member);
    match g.level
    case Raid0 =>
    case Raid5 =>
      ModWrap(g.ParityP(row) + 1 + col, g.numMembers);
    case Raid6 =>
      ModWrap(g.ParityQ(row) + 1 + col, g.numMembers);
      ModWrap(member, g.numMembers);
  }

  // ----- over the whole array: the mapping is a bijection onto the data slots

  lemma Capacity(g: RaidGeometry)
    requires g.Valid()
    ensures g.TotalLogicalSectors() == (g.StripeRows() * g.DataDisks()) * g.ChunkSectors()
  {
    hide RaidGeometry.StripeRows, RaidGeometry.ChunkSectors, RaidGeometry.DataDisks, RaidGeometry.Valid;
    Reorder(g.StripeRows(), g.ChunkSectors(), g.DataDisks());
  }

  lemma Reorder(a: nat, b: nat, c: nat)
    ensures a * b * c == (a * c) * b
  {}

  /** The rows of the array are those that fit. */
  lemma RowFitsIff(g: RaidGeometry, row: nat)
    requires g.Valid()
    ensures g.RowFits(row) <==> row < g.StripeRows()
  {
    hide RaidGeometry.ChunkSectors, RaidGeometry.Valid;
    if g.memberCapacitySectors >= g.dataOffsetSectors {
      BelowQuotientIff(g.memberCapacitySectors - g.dataOffsetSectors, g.ChunkSectors(), row);
    } else {
      DivModUnique(0, g.ChunkSectors(), 0);
      MulMono(0, row + 1, g.ChunkSectors());
    }
  }

  /** The sectors of the array are those whose row fits. */
  lemma InArrayIff(g: RaidGeometry, lba: nat)
    requires g.Valid()
    ensures lba < g.TotalLogicalSectors() <==> g.RowFits(g.MapLba(lba).stripeRow)
  {
    RowFitsIff(g, g.MapLba(lba).stripeRow);
    Capacity(g);
    hide RaidGeometry.ChunkSectors, RaidGeometry.DataDisks, RaidGeometry.DataMember, RaidGeometry.StripeRows,
      RaidGeometry.TotalLogicalSectors, RaidGeometry.Valid, RaidGeometry.RowFits;
    DivBelowIff(lba, g.ChunkSectors(), g.StripeRows() * g.DataDisks());
    DivBelowIff(lba / g.ChunkSectors(), g.DataDisks(), g.StripeRows());
  }

  lemma MapLbaBounds(g: RaidGeometry, lba: nat)
    requires g.Valid() && lba < g.TotalLogicalSectors()
    ensures var loc := g.MapLba(lba);
      loc.stripeRow < g.StripeRows() && loc.dataCol < g.DataDisks() && loc.offsetInChunk < g.ChunkSectors()
  {
    Capacity(g);
    DivBelow(lba, g.ChunkSectors(), g.StripeRows() * g.DataDisks());
    DivBelow(lba / g.ChunkSectors(), g.DataDisks(), g.StripeRows());
  }

  /** Row and offset determine the sector on the member, and the other way round. */
  lemma SlotOfRow(g: RaidGeometry, row: nat, offset: nat)
    requires g.Valid() && row < g.StripeRows() && offset < g.ChunkSectors()
    ensures var rel := row * g.ChunkSectors() + offset;
      && rel / g.ChunkSectors() == row && rel % g.ChunkSectors() == offset
      && g.RowFits(row) && g.dataOffsetSectors + rel < g.memberCapacitySectors
  {
    RowFitsIff(g, row);
    hide RaidGeometry.StripeRows, RaidGeometry.ChunkSectors;
    DivModUnique(row, g.ChunkSectors(), offset);
    assert (row + 1) * g.ChunkSectors() == row * g.ChunkSectors() + g.ChunkSectors();
  }

  /** Chunk number and offset determine the array sector, and the other way round. */
  lemma LbaOfChunk(g: RaidGeometry, row: nat, col: nat, offset: nat, sector: nat, lba: nat)
    requires g.Valid() && row < g.StripeRows() && col < g.DataDisks() && offset < g.ChunkSectors()
    requires sector == g.dataOffsetSectors + row * g.ChunkSectors() + offset
    requires lba == (row * g.DataDisks() + col) * g.ChunkSectors() + offset
    ensures lba < g.TotalLogicalSectors()
    ensures g.MapLba(lba) == DiskBlockLocation(row, col, g.DataMember(row, col), sector, offset)
  {
    hide RaidGeometry.ChunkSectors, RaidGeometry.DataDisks, RaidGeometry.DataMember, RaidGeometry.StripeRows,
      RaidGeometry.TotalLogicalSectors;
    var chunk := row * g.DataDisks() + col;
    Capacity(g);
    MulBelow(row, g.DataDisks(), col, g.StripeRows());
    MulBelow(chunk, g.ChunkSectors(), offset, g.StripeRows() * g.DataDisks());
    DivModUnique(chunk, g.ChunkSectors(), offset);
    DivModUnique(row, g.DataDisks(), col);
  }

  /** Every array sector lands on a data slot inside the member, from which it can be recovered. */
  lemma MapLbaSound(g: RaidGeometry, lba: nat)
    requires g.Valid() && lba < g.TotalLogicalSectors()
    ensures var loc := g.MapLba(lba);
      && g.IsDataSlot(loc.memberIdx, loc.memberLba)
      && (loc.memberLba - g.dataOffsetSectors) / g.ChunkSectors() == loc.stripeRow
      && loc.memberLba < g.memberCapacitySectors
      && g.UnmapSlot(loc.memberIdx, loc.memberLba) == lba
  {
    hide RaidGeometry.ChunkSectors, RaidGeometry.DataDisks, RaidGeometry.DataMember, RaidGeometry.StripeRows,
      RaidGeometry.ParityMembers, RaidGeometry.ColumnOf, RaidGeometry.TotalLogicalSectors, RaidGeometry.RowFits;
    var loc := g.MapLba(lba);
    MapLbaBounds(g, lba);
    DataMemberSound(g, loc.stripeRow, loc.dataCol);
    SlotOfRow(g, loc.stripeRow, loc.offsetInChunk);
    LbaParts(lba, g.ChunkSectors(), g.DataDisks());
  }

  lemma LbaParts(lba: nat, chunk: nat, disks: nat)
    requires chunk != 0 && disks != 0
    ensures (lba / chunk / disks * disks + lba / chunk % disks) * chunk + lba % chunk == lba
  {}

  /** Every data slot is reached from exactly the array sector that `UnmapSlot` gives. */
  lemma UnmapSlotSound(g: RaidGeometry, member: nat, sector: nat)
    requires g.Valid() && g.IsDataSlot(member, sector)
    ensures 0 <= g.UnmapSlot(member, sector) < g.TotalLogicalSectors()
    ensures g.MapLba(g.UnmapSlot(member, sector)).memberIdx == member
    ensures g.MapLba(g.UnmapSlot(member, sector)).memberLba == sector
  {
    hide RaidGeometry.ChunkSectors, RaidGeometry.DataMember, RaidGeometry.StripeRows, RaidGeometry.RowFits,
      RaidGeometry.ParityMembers, RaidGeometry.ColumnOf, RaidGeometry.TotalLogicalSectors;
    var rel: nat := sector - g.dataOffsetSectors;
    RowFitsIff(g, rel / g.ChunkSectors());
    DivBelowIff(rel, g.ChunkSectors(), g.StripeRows());
    var row, offset := QuotientAndRest(rel, g.ChunkSectors(), g.StripeRows());
    DataMemberComplete(g, row, member);
    LbaOfChunk(g, row, g.ColumnOf(row, member), offset, sector, g.UnmapSlot(member, sector));
  }

  /** The sectors of the array lie on exactly the data slots: all of every row that fits, and nothing else. */
  lemma DataSlotsAreImages(g: RaidGeometry, member: nat, sector: nat)
    requires g.Valid()
    ensures g.IsDataSlot(member, sector) <==>
      exists lba: nat :: lba < g.TotalLogicalSectors() && SlotOf(g, lba, member, sector)
  {
    hide RaidGeometry.IsDataSlot, RaidGeometry.MapLba, RaidGeometry.UnmapSlot, RaidGeometry.TotalLogicalSectors,
      RaidGeometry.Valid;
    if g.IsDataSlot(member, sector) {
      UnmapSlotSound(g, member, sector);
      assert SlotOf(g, g.UnmapSlot(member, sector), member, sector);
    }
    if lba: nat :| lba < g.TotalLogicalSectors() && SlotOf(g, lba, member, sector) {
      MapLbaSound(g, lba);
    }
  }

  /** The array sector lies on this sector of this member. */
  predicate SlotOf(g: RaidGeometry, lba: nat, member: nat, sector: nat)
    requires g.Valid()
  {
    g.MapLba(lba).memberIdx == member && g.MapLba(lba).memberLba == sector
  }

  /** Two different array sectors never share a member sector. */
  lemma MapLbaInjective(g: RaidGeometry, a: nat, b: nat)
    requires g.Valid() && a < g.TotalLogicalSectors() && b < g.TotalLogicalSectors()
    requires g.MapLba(a).memberIdx == g.MapLba(b).memberIdx && g.MapLba(a).memberLba == g.MapLba(b).memberLba
    ensures a == b
  {
    MapLbaSound(g, a);
    MapLbaSound(g, b);
  }

  lemma NewAccepts(chunkSizeBytes: nat, sectorSize: nat)
    ensures (exists k: nat :: chunkSizeBytes == Pow2(k))
      <==> chunkSizeBytes != 0 && And(chunkSizeBytes, chunkSizeBytes - 1) == 0
    ensures sectorSize != 0 ==> (Divides(sectorSize, chunkSizeBytes) <==> chunkSizeBytes % sectorSize == 0)
  {
    if chunkSizeBytes != 0 {
      ChunkTestIsPowerOfTwo(chunkSizeBytes);
    }
    if sectorSize != 0 {
      DividesIsMod(sectorSize, chunkSizeBytes);
    }
  }

  /** The chunk size test accepts exactly the powers of two. */
  lemma {:induction false} ChunkTestIsPowerOfTwo(c: nat)
    requires c != 0
    ensures And(c, c - 1) == 0 <==> exists k: nat :: c == Pow2(k)
  {
    if c == 1 {
      assert c == Pow2(0);
    } else if c % 2 == 1 {
      AndPred(c);
      forall k: nat
        ensures c != Pow2(k)
      {}
    } else {
      ChunkTestIsPowerOfTwo(c / 2);
      assert (c - 1) / 2 == c / 2 - 1 && (c - 1) % 2 == 1;
      PowerOfTwoHalf(c);
    }
  }

  lemma PowerOfTwoHalf(c: nat)
    requires c != 0 && c % 2 == 0
    ensures (exists k: nat :: c == Pow2(k)) <==> (exists k: nat :: c / 2 == Pow2(k))
  {
    if k: nat :| c == Pow2(k) {
      assert Pow2(0) == 1;
      var half: nat := k - 1;
      assert c == 2 * Pow2(half);
      assert c / 2 == Pow2(half);
    }
    if k: nat :| c / 2 == Pow2(k) {
      var double: nat := k + 1;
      assert Pow2(double) == 2 * Pow2(k);
      assert c == Pow2(double);
    }
  }

  lemma AndPred(c: nat)
    requires c > 1 && c % 2 == 1
    ensures And(c, c - 1) != 0
  {
    assert (c - 1) / 2 == c / 2;
    AndSelf(c / 2);
  }
}
