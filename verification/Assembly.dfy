/** Assembling an array from whatever member drives are offered, by their superblocks. */
module Assembly {
  import opened Arithmetic
  import opened Bits
  import opened DegradedRead
  import opened Layout
  import opened RaidArrays
  import opened Superblocks
  import opened Wrappers

  datatype AssemblyError = NoSuperblock | BadGeometry(geometryError: GeometryError) | Unassembled(raidError: RaidError)

  // ----- finding a superblock on one drive

  function TotalBlocks(disk: Disk, blockSize: nat): nat
    requires blockSize != 0
  {
    |disk.bytes| / blockSize
  }

  /** A read of no blocks succeeds and returns nothing. */
  function ReadBlocksAt(disk: Disk, blockSize: nat, lba: nat, count: nat): Result<seq<byte>, IoError>
    requires blockSize != 0
  {
    if count == 0 then Ok([]) else disk.Read(blockSize, lba, count)
  }

  function Probe(disk: Disk, blockSize: nat, lba: nat, minorHint: nat): Result<Superblock, SuperblockError>
    requires blockSize != 0
  {
    var data := ReadBlocksAt(disk, blockSize, lba, SUPERBLOCK_BYTES / blockSize);
    if data.Ok? then ParseV1(data.value, minorHint) else Err(SuperblockNotFound)
  }

  /** Probes the places of format 1.2, 1.1 and 1.0, in this order. */
  function DetectMdadmSuperblock(disk: Disk, blockSize: nat): Result<Superblock, SuperblockError>
    requires blockSize != 0
  {
    var total, lba12 := TotalBlocks(disk, blockSize), SUPERBLOCK_BYTES / blockSize;
    var sb12 := if total > lba12 + 8 then Probe(disk, blockSize, lba12, 2) else Err(SuperblockNotFound);
    if sb12.Ok? then sb12
    else
      var sb11 := if total >= 8 then Probe(disk, blockSize, 0, 1) else Err(SuperblockNotFound);
      if sb11.Ok? then sb11
      else if total > 12288 / blockSize then
        TailBlocks(total, blockSize);
        var sb10 := Probe(disk, blockSize, total - 8192 / blockSize, 0);
        if sb10.Ok? then sb10 else Err(SuperblockNotFound)
      else Err(SuperblockNotFound)
  }

  lemma TailBlocks(total: nat, blockSize: nat)
    requires blockSize != 0 && total > 12288 / blockSize
    ensures 8192 / blockSize <= total
  {
    if 8192 / blockSize > 12288 / blockSize {
      MulMono(12288 / blockSize + 1, 8192 / blockSize, blockSize);
    }
  }

  /** The magic number stands at this byte of the drive. */
  predicate MagicAt(disk: Disk, at: int) {
    0 <= at && at + 4 <= |disk.bytes| && disk.bytes[at..at + 4] == [0x09, 0x0c, 0x28, 0xa9]
  }

  /** Where the formats 1.2, 1.1 and 1.0 have their superblock, in bytes from the start of the drive. */
  function PlaceOf(minor: nat, blockSize: nat, total: nat): int {
    if minor == 2 then 4096 else if minor == 1 then 0 else total * blockSize - 8192
  }

  /** The drive is large enough for the place to be looked at. */
  predicate LookedAt(minor: nat, blockSize: nat, total: nat)
    requires blockSize != 0
  {
    if minor == 2 then total > 4096 / blockSize + 8 else if minor == 1 then total >= 8 else total > 12288 / blockSize
  }

  /**
   * The drive carries this superblock, written over zeros in the place of its format; no place looked at before has
   * the magic number.
   */
  ghost predicate Carries(disk: Disk, blockSize: nat, sb: Superblock) {
    && sb.WellTyped() && sb.majorVersion == 1 && sb.minorVersion <= 2 && NameKept(sb.setName)
    && blockSize != 0 && 4096 % blockSize == 0
    && var total := |disk.bytes| / blockSize;
       var at := PlaceOf(sb.minorVersion, blockSize, total);
       && LookedAt(sb.minorVersion, blockSize, total)
       && 0 <= at && at + 4096 <= |disk.bytes| && disk.RangeOk(blockSize, at / blockSize, 4096 / blockSize)
       && disk.bytes[at..at + 4096] == Written(seq(4096, _ => 0), sb)
       && (sb.minorVersion < 2 ==> !MagicAt(disk, 4096))
       && (sb.minorVersion < 1 ==> !MagicAt(disk, 0))
  }

  lemma WholeBlocks(blockSize: nat)
    requires blockSize != 0 && 4096 % blockSize == 0
    ensures 4096 / blockSize != 0 && 4096 / blockSize * blockSize == 4096
    ensures 8192 / blockSize == 2 * (4096 / blockSize)
  {
    var n := 4096 / blockSize;
    assert 4096 == n * blockSize;
    assert 8192 == (2 * n) * blockSize + 0;
    DivModUnique(2 * n, blockSize, 0);
  }

  lemma ProbeReads(disk: Disk, blockSize: nat, lba: nat, at: nat)
    requires blockSize != 0 && 4096 % blockSize == 0 && at == lba * blockSize
    requires disk.RangeOk(blockSize, lba, 4096 / blockSize) && at + 4096 <= |disk.bytes|
    ensures ReadBlocksAt(disk, blockSize, lba, 4096 / blockSize) == Ok(disk.bytes[at..at + 4096])
  {
    WholeBlocks(blockSize);
    hide Disk.RangeOk;
    var r := disk.Read(blockSize, lba, 4096 / blockSize);
    assert r.value == disk.bytes[at..at + 4096];
  }

  /** A superblock is found in the place of its format. */
  lemma ProbeFinds(disk: Disk, blockSize: nat, sb: Superblock, lba: nat)
    requires blockSize != 0 && Carries(disk, blockSize, sb)
    requires lba * blockSize == PlaceOf(sb.minorVersion, blockSize, |disk.bytes| / blockSize)
    ensures Probe(disk, blockSize, lba, sb.minorVersion) == Ok(sb)
  {
    var at := PlaceOf(sb.minorVersion, blockSize, |disk.bytes| / blockSize);
    hide ReadBlocksAt, ParseV1, Written, Superblock.WellTyped, Disk.RangeOk, PlaceOf, LookedAt;
    DivModUnique(lba, blockSize, 0);
    ProbeReads(disk, blockSize, lba, at);
    ParseInvertsWriter(seq(4096, _ => 0), sb, sb.minorVersion);
  }

  /** Whatever is found has the magic number. */
  lemma ProbeNeedsMagic(disk: Disk, blockSize: nat, lba: nat, minorHint: nat)
    requires blockSize != 0
    ensures var r := Probe(disk, blockSize, lba, minorHint);
      r.Ok? ==> MagicAt(disk, lba * blockSize) && r.value.minorVersion == minorHint
  {
    var data := ReadBlocksAt(disk, blockSize, lba, SUPERBLOCK_BYTES / blockSize);
    hide ParseV1, Disk.RangeOk;
    if data.Ok? {
      ParsedIff(data.value, minorHint);
      if |data.value| >= 4 {
        assert forall i | 0 <= i < 4 :: data.value[i] == disk.bytes[lba * blockSize + i];
        assert data.value[0..4] == disk.bytes[lba * blockSize..lba * blockSize + 4];
      }
    }
  }

  /** The first two places, by their bytes. */
  lemma FirstPlaces(disk: Disk, blockSize: nat)
    requires blockSize != 0
    ensures var r := Probe(disk, blockSize, 4096 / blockSize, 2);
      r.Ok? ==> MagicAt(disk, 4096 / blockSize * blockSize) && r.value.minorVersion == 2
    ensures var r := Probe(disk, blockSize, 0, 1); r.Ok? ==> MagicAt(disk, 0) && r.value.minorVersion == 1
    ensures 4096 % blockSize == 0 ==> 4096 / blockSize * blockSize == 4096
  {
    hide Probe, MagicAt;
    ProbeNeedsMagic(disk, blockSize, 4096 / blockSize, 2);
    ProbeNeedsMagic(disk, blockSize, 0, 1);
    if 4096 % blockSize == 0 {
      WholeBlocks(blockSize);
    }
  }

  lemma Detects12(disk: Disk, blockSize: nat, sb: Superblock)
    requires blockSize != 0 && |disk.bytes| / blockSize > 4096 / blockSize + 8
    requires Probe(disk, blockSize, 4096 / blockSize, 2) == Ok(sb)
    ensures DetectMdadmSuperblock(disk, blockSize) == Ok(sb)
  {
    hide Probe;
  }

  lemma Detects11(disk: Disk, blockSize: nat, sb: Superblock)
    requires blockSize != 0 && |disk.bytes| / blockSize >= 8
    requires Probe(disk, blockSize, 4096 / blockSize, 2).Err?
    requires Probe(disk, blockSize, 0, 1) == Ok(sb)
    ensures DetectMdadmSuperblock(disk, blockSize) == Ok(sb)
  {
    hide Probe;
  }

  lemma Detects10(disk: Disk, blockSize: nat, sb: Superblock, lba: nat)
    requires blockSize != 0 && |disk.bytes| / blockSize > 12288 / blockSize
    requires Probe(disk, blockSize, 4096 / blockSize, 2).Err? && Probe(disk, blockSize, 0, 1).Err?
    requires lba == |disk.bytes| / blockSize - 8192 / blockSize && Probe(disk, blockSize, lba, 0) == Ok(sb)
    ensures DetectMdadmSuperblock(disk, blockSize) == Ok(sb)
  {
    hide Probe;
  }

  /** A superblock that a drive carries is detected, unchanged, whichever of the three formats it has. */
  lemma WrittenIsDetected(disk: Disk, blockSize: nat, sb: Superblock)
    requires Carries(disk, blockSize, sb)
    ensures blockSize != 0 && DetectMdadmSuperblock(disk, blockSize) == Ok(sb)
  {
    hide *;
    CarriedParts(disk, blockSize, sb);
    var total := |disk.bytes| / blockSize;
    FirstPlaces(disk, blockSize);
    if sb.minorVersion == 2 {
      ProbeFinds(disk, blockSize, sb, 4096 / blockSize);
      Detects12(disk, blockSize, sb);
    } else if sb.minorVersion == 1 {
      ProbeFinds(disk, blockSize, sb, 0);
      Detects11(disk, blockSize, sb);
    } else {
      TailBlocks(total, blockSize);
      TailPlace(total, blockSize);
      ProbeFinds(disk, blockSize, sb, total - 8192 / blockSize);
      Detects10(disk, blockSize, sb, total - 8192 / blockSize);
    }
  }

  lemma CarriedParts(disk: Disk, blockSize: nat, sb: Superblock)
    requires Carries(disk, blockSize, sb)
    ensures blockSize != 0 && 4096 % blockSize == 0 && sb.minorVersion <= 2
    ensures var total := |disk.bytes| / blockSize;
      if sb.minorVersion == 2 then
        total > 4096 / blockSize + 8 && PlaceOf(2, blockSize, total) == 4096
      else if sb.minorVersion == 1 then
        total >= 8 && PlaceOf(1, blockSize, total) == 0 && !MagicAt(disk, 4096)
      else
        && total > 12288 / blockSize && PlaceOf(0, blockSize, total) == total * blockSize - 8192
        && !MagicAt(disk, 4096) && !MagicAt(disk, 0)
  {
    hide Written, Disk.RangeOk, MagicAt;
  }

  lemma TailPlace(total: nat, blockSize: nat)
    requires blockSize != 0 && 4096 % blockSize == 0 && 8192 / blockSize <= total
    ensures (total - 8192 / blockSize) * blockSize == total * blockSize - 8192
  {
    WholeBlocks(blockSize);
    var n := 4096 / blockSize;
    assert (total - 2 * n) * blockSize == total * blockSize - 2 * (n * blockSize);
  }

  /** Format 1.1: a superblock at the very start of the drive. */
  lemma StartIsDetected(disk: Disk, blockSize: nat, sb: Superblock)
    requires sb.WellTyped() && sb.majorVersion == 1 && sb.minorVersion == 1 && NameKept(sb.setName)
    requires blockSize != 0 && 4096 % blockSize == 0 && |disk.bytes| / blockSize >= 8 && |disk.bytes| >= 4096
    requires disk.RangeOk(blockSize, 0, 4096 / blockSize)
    requires disk.bytes[0..4096] == Written(seq(4096, _ => 0), sb) && !MagicAt(disk, 4096)
    ensures DetectMdadmSuperblock(disk, blockSize) == Ok(sb)
  {
    hide Written, Disk.RangeOk, MagicAt, DetectMdadmSuperblock;
    WrittenIsDetected(disk, blockSize, sb);
  }

  /** Format 1.0: a superblock 8192 bytes before the end of the drive's last whole block. */
  lemma TailIsDetected(disk: Disk, blockSize: nat, sb: Superblock, at: nat)
    requires sb.WellTyped() && sb.majorVersion == 1 && sb.minorVersion == 0 && NameKept(sb.setName)
    requires blockSize != 0 && 4096 % blockSize == 0 && |disk.bytes| / blockSize > 12288 / blockSize
    requires at + 8192 == |disk.bytes| / blockSize * blockSize
    requires disk.RangeOk(blockSize, at / blockSize, 4096 / blockSize)
    requires at + 4096 <= |disk.bytes| && disk.bytes[at..at + 4096] == Written(seq(4096, _ => 0), sb)
    requires !MagicAt(disk, 4096) && !MagicAt(disk, 0)
    ensures DetectMdadmSuperblock(disk, blockSize) == Ok(sb)
  {
    hide Written, Disk.RangeOk, MagicAt, DetectMdadmSuperblock;
    WrittenIsDetected(disk, blockSize, sb);
  }

  /** What is detected has the magic number in the place of its format, on a drive large enough for it. */
  lemma DetectedHasMagic(disk: Disk, blockSize: nat)
    requires blockSize != 0 && DetectMdadmSuperblock(disk, blockSize).Ok?
    ensures var minor, total := DetectMdadmSuperblock(disk, blockSize).value.minorVersion, |disk.bytes| / blockSize;
      && minor <= 2 && LookedAt(minor, blockSize, total)
      && MagicAt(disk, if minor == 2 then 4096 / blockSize * blockSize
                       else if minor == 1 then 0
                       else (total - 8192 / blockSize) * blockSize)
  {
    var total := TotalBlocks(disk, blockSize);
    hide Probe, MagicAt;
    FirstPlaces(disk, blockSize);
    if total > 12288 / blockSize {
      TailBlocks(total, blockSize);
      ProbeNeedsMagic(disk, blockSize, total - 8192 / blockSize, 0);
    }
  }

  /** A drive without the magic number in any of the three places is not detected. */
  lemma NoMagicNotDetected(disk: Disk, blockSize: nat)
    requires blockSize != 0 && 4096 % blockSize == 0
    requires !MagicAt(disk, 4096) && !MagicAt(disk, 0)
    requires !MagicAt(disk, |disk.bytes| / blockSize * blockSize - 8192)
    ensures DetectMdadmSuperblock(disk, blockSize).Err?
  {
    WholeBlocks(blockSize);
    var total := |disk.bytes| / blockSize;
    if total > 12288 / blockSize {
      TailBlocks(total, blockSize);
      TailPlace(total, blockSize);
    }
    hide DetectMdadmSuperblock, MagicAt;
    if DetectMdadmSuperblock(disk, blockSize).Ok? {
      DetectedHasMagic(disk, blockSize);
    }
  }

  // ----- who goes where

  /** The first `n` candidates that have a superblock, with their positions. */
  function Detected(cands: seq<Disk>, blockSize: nat, n: nat): (r: seq<(nat, Superblock)>)
    requires blockSize != 0 && n <= |cands|
    ensures forall k | 0 <= k < |r| :: r[k].0 < n && DetectMdadmSuperblock(cands[r[k].0], blockSize) == Ok(r[k].1)
  {
    if n == 0 then []
    else
      var sb := DetectMdadmSuperblock(cands[n - 1], blockSize);
      Detected(cands, blockSize, n - 1) + if sb.Ok? then [(n - 1, sb.value)] else []
  }

  /** The drive has a superblock of the set `primary` describes, and its number names a slot. */
  predicate Belongs(disk: Disk, blockSize: nat, primary: Superblock)
    requires blockSize != 0
  {
    var sb := DetectMdadmSuperblock(disk, blockSize);
    sb.Ok? && sb.value.devNumber < primary.raidDisks && sb.value.setUuid == primary.setUuid
  }

  predicate TakesSlot(disk: Disk, blockSize: nat, primary: Superblock, slot: nat)
    requires blockSize != 0
  {
    Belongs(disk, blockSize, primary) && DetectMdadmSuperblock(disk, blockSize).value.devNumber == slot
  }

  /** The last of the first `n` candidates that belongs into the slot. */
  function Occupant(cands: seq<Disk>, blockSize: nat, primary: Superblock, slot: nat, n: nat): Option<Disk>
    requires blockSize != 0 && n <= |cands|
  {
    if n == 0 then None
    else if TakesSlot(cands[n - 1], blockSize, primary, slot) then Some(cands[n - 1])
    else Occupant(cands, blockSize, primary, slot, n - 1)
  }

  function Slots(cands: seq<Disk>, blockSize: nat, primary: Superblock): (r: seq<Option<Disk>>)
    requires blockSize != 0
    ensures |r| == primary.raidDisks
  {
    seq(primary.raidDisks, (slot: nat) => Occupant(cands, blockSize, primary, slot, |cands|))
  }

  /** Geometry and members of the array the candidates make up. */
  function Plan(cands: seq<Disk>, blockSize: nat): Result<(RaidGeometry, seq<Option<Disk>>), AssemblyError>
    requires blockSize != 0
  {
    var detected := Detected(cands, blockSize, |cands|);
    if |detected| == 0 then Err(NoSuperblock)
    else
      var primary := detected[0].1;
      var geometry := primary.ToGeometry(blockSize, TotalBlocks(cands[0], blockSize));
      if geometry.Err? then Err(BadGeometry(geometry.error))
      else Ok((geometry.value, Slots(cands, blockSize, primary)))
  }

  lemma {:induction false} EveryDetected(cands: seq<Disk>, blockSize: nat, n: nat, i: nat) returns (k: nat)
    requires blockSize != 0 && i < n <= |cands| && DetectMdadmSuperblock(cands[i], blockSize).Ok?
    ensures k < |Detected(cands, blockSize, n)| && Detected(cands, blockSize, n)[k].0 == i
  {
    hide DetectMdadmSuperblock;
    if i == n - 1 {
      k := |Detected(cands, blockSize, n)| - 1;
    } else {
      k := EveryDetected(cands, blockSize, n - 1, i);
    }
  }

  /** The first superblock found for a candidate. */
  method FindSuperblock(detected: seq<(nat, Superblock)>, idx: nat) returns (sb: Superblock)
    requires exists k :: 0 <= k < |detected| && detected[k].0 == idx
    ensures (idx, sb) in detected
  {
    var k := 0;
    while detected[k].0 != idx
      invariant k < |detected| && exists k' :: k <= k' < |detected| && detected[k'].0 == idx
      decreases |detected| - k
    {
      k := k + 1;
    }
    sb := detected[k].1;
  }

  /** Marks the candidates that belong to the primary superblock's set. */
  method MarkUsed(cands: seq<Disk>, blockSize: nat, primary: Superblock, detected: seq<(nat, Superblock)>)
    returns (used: array<bool>)
    requires blockSize != 0 && detected == Detected(cands, blockSize, |cands|)
    ensures fresh(used) && used.Length == |cands|
    ensures forall i | 0 <= i < |cands| :: used[i] <==> Belongs(cands[i], blockSize, primary)
  {
    hide DetectMdadmSuperblock, Detected;
    used := new bool[|cands|](_ => false);
    for k := 0 to |detected|
      invariant forall i | 0 <= i < |cands| && used[i] :: Belongs(cands[i], blockSize, primary)
      invariant forall j | 0 <= j < k && Belongs(cands[detected[j].0], blockSize, primary) :: used[detected[j].0]
    {
      var slot := detected[k].1.devNumber;
      if slot < primary.raidDisks && detected[k].1.setUuid == primary.setUuid {
        used[detected[k].0] := true;
      }
    }
    forall i | 0 <= i < |cands| && Belongs(cands[i], blockSize, primary)
      ensures used[i]
    {
      var k := EveryDetected(cands, blockSize, |cands|, i);
    }
  }

  method DetectAll(cands: seq<Disk>, blockSize: nat) returns (detected: seq<(nat, Superblock)>)
    requires blockSize != 0
    ensures detected == Detected(cands, blockSize, |cands|)
  {
    hide DetectMdadmSuperblock;
    detected := [];
    for i := 0 to |cands|
      invariant detected == Detected(cands, blockSize, i)
    {
      var sb := DetectMdadmSuperblock(cands[i], blockSize);
      if sb.Ok? {
        detected := detected + [(i, sb.value)];
      }
    }
  }

  /** Puts every marked candidate into its slot; a later one replaces an earlier one. */
  method PlaceMembers(cands: seq<Disk>, blockSize: nat, primary: Superblock, detected: seq<(nat, Superblock)>)
    returns (ordered: seq<Option<Disk>>)
    requires blockSize != 0 && detected == Detected(cands, blockSize, |cands|)
    ensures ordered == Slots(cands, blockSize, primary)
  {
    hide DetectMdadmSuperblock, Detected;
    var slots := new Option<Disk>[primary.raidDisks](_ => None);
    var used := MarkUsed(cands, blockSize, primary, detected);
    for idx := 0 to |cands|
      invariant forall slot | 0 <= slot < primary.raidDisks ::
        slots[slot] == Occupant(cands, blockSize, primary, slot, idx)
      invariant forall i | 0 <= i < |cands| :: used[i] <==> Belongs(cands[i], blockSize, primary)
    {
      if used[idx] {
        ghost var k := EveryDetected(cands, blockSize, |cands|, idx);
        var sb := FindSuperblock(detected, idx);
        if sb.devNumber < primary.raidDisks {
          slots[sb.devNumber] := Some(cands[idx]);
        }
      }
    }
    ordered := slots[..];
  }

  /** Detects geometry and member order from the superblocks of the candidates. */
  method AutoDetect(cands: seq<Disk>, blockSize: nat) returns (r: Result<RaidArray, AssemblyError>)
    requires blockSize != 0
    ensures var plan := Plan(cands, blockSize);
      if plan.Err? then r == Err(plan.error)
      else if |MissingBelow(plan.value.1, |plan.value.1|)| <= ParityCount(plan.value.0.level) then
        r.Ok? && r.value.Valid() && r.value.geometry == plan.value.0 && r.value.members == plan.value.1
      else r == Err(Unassembled(InsufficientMembers))
    ensures r == Err(NoSuperblock) <==> forall d | d in cands :: DetectMdadmSuperblock(d, blockSize).Err?
  {
    hide DetectMdadmSuperblock, Detected, RaidGeometry.Valid, RaidArray.Valid, MissingBelow;
    if cands == [] {
      return Err(NoSuperblock);
    }
    var detected := DetectAll(cands, blockSize);
    FirstDetected(cands, blockSize, |cands|);
    assert detected != [] ==> cands[detected[0].0] in cands;
    if detected == [] {
      return Err(NoSuperblock);
    }
    var primary := detected[0].1;
    var geometry := primary.ToGeometry(blockSize, TotalBlocks(cands[0], blockSize));
    if geometry.Err? {
      return Err(BadGeometry(geometry.error));
    }
    var ordered := PlaceMembers(cands, blockSize, primary, detected);
    var assembled := RaidArray.New(geometry.value, ordered);
    if assembled.Err? {
      return Err(Unassembled(assembled.error));
    }
    r := Ok(assembled.value);
  }

  // ----- the order of the candidates does not matter

  lemma {:induction false} OccupantIs(cands: seq<Disk>, blockSize: nat, primary: Superblock, slot: nat, n: nat, i: nat)
    requires blockSize != 0 && i < n <= |cands| && TakesSlot(cands[i], blockSize, primary, slot)
    requires forall j | 0 <= j < |cands| && TakesSlot(cands[j], blockSize, primary, slot) :: cands[j] == cands[i]
    ensures Occupant(cands, blockSize, primary, slot, n) == Some(cands[i])
  {
    hide TakesSlot;
    if !TakesSlot(cands[n - 1], blockSize, primary, slot) {
      OccupantIs(cands, blockSize, primary, slot, n - 1, i);
    }
  }

  lemma {:induction false} NoOccupant(cands: seq<Disk>, blockSize: nat, primary: Superblock, slot: nat, n: nat)
    requires blockSize != 0 && n <= |cands|
    requires forall d | d in cands :: !TakesSlot(d, blockSize, primary, slot)
    ensures Occupant(cands, blockSize, primary, slot, n) == None
  {
    if n != 0 {
      assert cands[n - 1] in cands;
      NoOccupant(cands, blockSize, primary, slot, n - 1);
    }
  }

  /** Equal-sized candidates whose superblocks, where they have one, differ in the member number only. */
  ghost predicate OneSet(cands: seq<Disk>, blockSize: nat, base: Superblock)
    requires blockSize != 0
  {
    && (forall d | d in cands && DetectMdadmSuperblock(d, blockSize).Ok? ::
          var sb := DetectMdadmSuperblock(d, blockSize).value; sb == base.(devNumber := sb.devNumber))
    && (forall d, e | d in cands && e in cands && DetectMdadmSuperblock(d, blockSize).Ok?
                      && DetectMdadmSuperblock(d, blockSize) == DetectMdadmSuperblock(e, blockSize) :: d == e)
    && (forall d, e | d in cands && e in cands :: TotalBlocks(d, blockSize) == TotalBlocks(e, blockSize))
  }

  /** In one set, a slot is taken by the candidate with its number, wherever that stands in the list. */
  lemma OccupantByNumber(cands: seq<Disk>, blockSize: nat, base: Superblock, primary: Superblock, slot: nat)
    requires blockSize != 0 && OneSet(cands, blockSize, base) && slot < primary.raidDisks
    requires primary.raidDisks == base.raidDisks && primary.setUuid == base.setUuid
    ensures var o := Occupant(cands, blockSize, primary, slot, |cands|);
      && (o.Some? ==> o.value in cands && DetectMdadmSuperblock(o.value, blockSize) == Ok(base.(devNumber := slot)))
      && (forall d | d in cands && DetectMdadmSuperblock(d, blockSize) == Ok(base.(devNumber := slot)) :: o == Some(d))
  {
    hide DetectMdadmSuperblock, TotalBlocks;
    if d :| d in cands && TakesSlot(d, blockSize, primary, slot) {
      var i :| 0 <= i < |cands| && cands[i] == d;
      OccupantIs(cands, blockSize, primary, slot, |cands|, i);
    } else {
      NoOccupant(cands, blockSize, primary, slot, |cands|);
    }
  }

  /** What the first detected superblock says, apart from its number. */
  lemma PrimaryOf(cands: seq<Disk>, blockSize: nat, base: Superblock)
    requires blockSize != 0 && OneSet(cands, blockSize, base)
    ensures var detected := Detected(cands, blockSize, |cands|);
      && (|detected| == 0 <==> forall d | d in cands :: DetectMdadmSuperblock(d, blockSize).Err?)
      && (|detected| != 0 ==> detected[0].1 == base.(devNumber := detected[0].1.devNumber))
  {
    hide DetectMdadmSuperblock, TotalBlocks, Detected;
    var detected := Detected(cands, blockSize, |cands|);
    if d :| d in cands && DetectMdadmSuperblock(d, blockSize).Ok? {
      var i :| 0 <= i < |cands| && cands[i] == d;
      var k := EveryDetected(cands, blockSize, |cands|, i);
    }
    if |detected| != 0 {
      assert cands[detected[0].0] in cands;
    }
  }

  /** Assembly depends only on which candidates are offered: not on their order, and not on repetitions. */
  lemma OrderDoesNotMatter(a: seq<Disk>, b: seq<Disk>, blockSize: nat, base: Superblock)
    requires blockSize != 0 && OneSet(a, blockSize, base) && forall d :: d in a <==> d in b
    ensures Plan(a, blockSize) == Plan(b, blockSize)
  {
    hide DetectMdadmSuperblock, TotalBlocks, Detected, Occupant;
    PrimaryOf(a, blockSize, base);
    PrimaryOf(b, blockSize, base);
    var da, db := Detected(a, blockSize, |a|), Detected(b, blockSize, |b|);
    if |da| != 0 {
      assert a[0] in a && b[0] in b;
      var pa, pb := da[0].1, db[0].1;
      forall slot | 0 <= slot < base.raidDisks
        ensures Occupant(a, blockSize, pa, slot, |a|) == Occupant(b, blockSize, pb, slot, |b|)
      {
        OccupantByNumber(a, blockSize, base, pa, slot);
        OccupantByNumber(b, blockSize, base, pb, slot);
      }
      assert Slots(a, blockSize, pa) == Slots(b, blockSize, pb);
    }
  }

  // ----- an array taken apart and put together again

  /** The superblock says what the geometry is, on members of as many blocks as their capacity. */
  ghost predicate Describes(base: Superblock, g: RaidGeometry, blockSize: nat) {
    && base.level == g.level && base.layout == g.layout && base.raidDisks == g.numMembers
    && base.chunkSizeSectors * blockSize % 0x1_0000_0000 == g.chunkSizeBytes && blockSize == g.sectorSize
    && base.dataOffsetSectors == g.dataOffsetSectors
    && g.Valid() && exists k: nat :: g.chunkSizeBytes == Pow2(k)
  }

  /** The drive has as many whole blocks as the capacity of a member. */
  predicate Fits(disk: Disk, g: RaidGeometry) {
    g.memberCapacitySectors * g.sectorSize <= |disk.bytes| < (g.memberCapacitySectors + 1) * g.sectorSize
  }

  /** Member `i` carries the superblock of the set with number `i`, and the set describes the array. */
  ghost predicate Labelled(h: RaidArray, blockSize: nat, base: Superblock) {
    && Complete(h) && Describes(base, h.geometry, blockSize)
    && (forall i | 0 <= i < |h.members| ::
          Carries(h.members[i].value, blockSize, base.(devNumber := i)) && Fits(h.members[i].value, h.geometry))
  }

  /** What the superblock describes is what it is read as, on drives that fit and on no others. */
  lemma DescribedIsRead(base: Superblock, g: RaidGeometry, blockSize: nat, disk: Disk)
    requires Describes(base, g, blockSize)
    ensures blockSize != 0
    ensures base.ToGeometry(blockSize, TotalBlocks(disk, blockSize)) == Ok(g) <==> Fits(disk, g)
  {
    hide RaidGeometry.New;
    FitsIff(|disk.bytes|, blockSize, g.memberCapacitySectors);
    WholeChunks(base, g, blockSize, TotalBlocks(disk, blockSize));
  }

  lemma FitsIff(size: nat, blockSize: nat, capacity: nat)
    requires blockSize != 0
    ensures size / blockSize == capacity <==> capacity * blockSize <= size < (capacity + 1) * blockSize
  {
    DivBelowIff(size, blockSize, capacity + 1);
    DivBelowIff(size, blockSize, capacity);
  }

  lemma WholeChunks(base: Superblock, g: RaidGeometry, blockSize: nat, total: nat)
    requires Describes(base, g, blockSize)
    ensures base.ToGeometry(blockSize, total) == Ok(g.(memberCapacitySectors := total))
  {
    NewAccepts(g.chunkSizeBytes, g.sectorSize);
    DividesIsMod(g.sectorSize, g.chunkSizeBytes);
    hide Divides;
  }

  lemma LabelledParts(h: RaidArray, blockSize: nat, base: Superblock)
    requires Labelled(h, blockSize, base)
    ensures Complete(h) && blockSize != 0 && base.raidDisks == |h.members| && |h.members| != 0
  {
    hide TotalBlocks, Carries, Superblock.ToGeometry, RaidGeometry.TotalLogicalSectors;
  }

  lemma LabelledDetects(h: RaidArray, blockSize: nat, base: Superblock, i: nat)
    requires Labelled(h, blockSize, base) && i < |h.members|
    ensures DetectMdadmSuperblock(h.members[i].value, blockSize) == Ok(base.(devNumber := i))
  {
    hide DetectMdadmSuperblock, TotalBlocks, Carries;
    WrittenIsDetected(h.members[i].value, blockSize, base.(devNumber := i));
  }

  /** The drive has no superblock, or that of another set. */
  predicate Foreign(disk: Disk, blockSize: nat, base: Superblock)
    requires blockSize != 0
  {
    var sb := DetectMdadmSuperblock(disk, blockSize);
    sb.Err? || sb.value.setUuid != base.setUuid
  }

  /** Members of the array and foreign drives of any size, at least one of them a member. */
  ghost predicate Mixed(h: RaidArray, blockSize: nat, base: Superblock, cands: seq<Disk>)
    requires blockSize != 0
  {
    && (exists d :: d in cands && Some(d) in h.members)
    && forall d | d in cands :: Some(d) in h.members || Foreign(d, blockSize, base)
  }

  /** The first drive that has a superblock has one of this set. */
  ghost predicate OwnFirst(cands: seq<Disk>, blockSize: nat, base: Superblock)
    requires blockSize != 0
  {
    exists i :: 0 <= i < |cands| && LeadsAt(cands, blockSize, base, i)
  }

  ghost predicate LeadsAt(cands: seq<Disk>, blockSize: nat, base: Superblock, i: nat)
    requires blockSize != 0 && i < |cands|
  {
    && !Foreign(cands[i], blockSize, base)
    && forall j | 0 <= j < i :: DetectMdadmSuperblock(cands[j], blockSize).Err?
  }

  /** The members that are offered, each in its slot. */
  function OwnSlots(h: RaidArray, cands: seq<Disk>): seq<Option<Disk>>
    requires Complete(h)
  {
    seq(|h.members|, i requires 0 <= i < |h.members| => if h.members[i].value in cands then h.members[i] else None)
  }

  lemma {:induction false} FirstDetected(cands: seq<Disk>, blockSize: nat, n: nat)
    requires blockSize != 0 && n <= |cands|
    ensures var detected := Detected(cands, blockSize, n);
      forall j | 0 <= j < if |detected| == 0 then n else detected[0].0 ::
        DetectMdadmSuperblock(cands[j], blockSize).Err?
  {
    hide DetectMdadmSuperblock;
    if n != 0 {
      FirstDetected(cands, blockSize, n - 1);
    }
  }

  /** The primary superblock is of this set exactly if the first drive with a superblock is. */
  lemma PrimaryOwnIff(cands: seq<Disk>, blockSize: nat, base: Superblock)
    requires blockSize != 0
    ensures var detected := Detected(cands, blockSize, |cands|);
      OwnFirst(cands, blockSize, base) <==> |detected| != 0 && detected[0].1.setUuid == base.setUuid
  {
    hide DetectMdadmSuperblock;
    FirstDetected(cands, blockSize, |cands|);
    hide Detected;
    var detected := Detected(cands, blockSize, |cands|);
    if i :| 0 <= i < |cands| && LeadsAt(cands, blockSize, base, i) {
      var k := EveryDetected(cands, blockSize, |cands|, i);
      assert detected[0].0 == i;
    }
    if |detected| != 0 && detected[0].1.setUuid == base.setUuid {
      assert LeadsAt(cands, blockSize, base, detected[0].0);
    }
  }

  lemma {:induction false} OccupantTakes(cands: seq<Disk>, blockSize: nat, primary: Superblock, slot: nat, n: nat)
    requires blockSize != 0 && n <= |cands|
    ensures var o := Occupant(cands, blockSize, primary, slot, n);
      o.Some? ==> o.value in cands && TakesSlot(o.value, blockSize, primary, slot)
  {
    hide TakesSlot;
    if n != 0 && !TakesSlot(cands[n - 1], blockSize, primary, slot) {
      OccupantTakes(cands, blockSize, primary, slot, n - 1);
    }
  }

  /** A drive on offer that belongs into a slot of the array is the member of that number. */
  lemma TakerIsMember(h: RaidArray, blockSize: nat, base: Superblock, cands: seq<Disk>, d: Disk, slot: nat)
    requires Labelled(h, blockSize, base) && Mixed(h, blockSize, base, cands) && d in cands
    ensures TakesSlot(d, blockSize, base, slot) <==> slot < |h.members| && h.members[slot] == Some(d)
  {
    LabelledParts(h, blockSize, base);
    hide Labelled, Complete, RaidArray.Valid, DetectMdadmSuperblock;
    if slot < |h.members| {
      LabelledDetects(h, blockSize, base, slot);
    }
    if Some(d) in h.members {
      var i :| 0 <= i < |h.members| && h.members[i] == Some(d);
      LabelledDetects(h, blockSize, base, i);
    }
  }

  /** Every offered member takes its slot, whatever else is offered. */
  lemma OccupantOfMixed(h: RaidArray, blockSize: nat, base: Superblock, cands: seq<Disk>, slot: nat)
    requires Labelled(h, blockSize, base) && Mixed(h, blockSize, base, cands) && slot < |h.members|
    ensures Occupant(cands, blockSize, base, slot, |cands|) == OwnSlots(h, cands)[slot]
  {
    LabelledParts(h, blockSize, base);
    hide Labelled, TakesSlot, Mixed, Occupant, RaidArray.Valid;
    forall d | d in cands
      ensures TakesSlot(d, blockSize, base, slot) <==> d == h.members[slot].value
    {
      TakerIsMember(h, blockSize, base, cands, d, slot);
    }
    OnlyTaker(cands, blockSize, base, slot, h.members[slot].value);
  }

  lemma OnlyTaker(cands: seq<Disk>, blockSize: nat, base: Superblock, slot: nat, member: Disk)
    requires blockSize != 0 && forall d | d in cands :: TakesSlot(d, blockSize, base, slot) <==> d == member
    ensures Occupant(cands, blockSize, base, slot, |cands|) == if member in cands then Some(member) else None
  {
    hide TakesSlot, Occupant;
    if member in cands {
      var i :| 0 <= i < |cands| && cands[i] == member;
      OccupantIs(cands, blockSize, base, slot, |cands|, i);
    } else {
      NoOccupant(cands, blockSize, base, slot, |cands|);
    }
  }

  /** Slots depend on the size and the name of the set only. */
  lemma {:induction false} OccupantOfSet(cands: seq<Disk>, blockSize: nat, p: Superblock, q: Superblock, slot: nat,
                                         n: nat)
    requires blockSize != 0 && n <= |cands| && p.raidDisks == q.raidDisks && p.setUuid == q.setUuid
    ensures Occupant(cands, blockSize, p, slot, n) == Occupant(cands, blockSize, q, slot, n)
  {
    hide DetectMdadmSuperblock;
    if n != 0 {
      OccupantOfSet(cands, blockSize, p, q, slot, n - 1);
    }
  }

  lemma SlotsOfMixed(h: RaidArray, blockSize: nat, base: Superblock, cands: seq<Disk>, primary: Superblock)
    requires Labelled(h, blockSize, base) && Mixed(h, blockSize, base, cands)
    requires primary.raidDisks == base.raidDisks && primary.setUuid == base.setUuid
    ensures Slots(cands, blockSize, primary) == OwnSlots(h, cands)
  {
    hide Occupant, Mixed, TotalBlocks, Carries;
    forall slot | 0 <= slot < |h.members|
      ensures Slots(cands, blockSize, primary)[slot] == OwnSlots(h, cands)[slot]
    {
      OccupantOfMixed(h, blockSize, base, cands, slot);
      OccupantOfSet(cands, blockSize, primary, base, slot, |cands|);
    }
  }

  /** A detected superblock of the set is a member's. */
  lemma OwnIsLabel(h: RaidArray, blockSize: nat, base: Superblock, cands: seq<Disk>, d: Disk)
    requires Labelled(h, blockSize, base) && Mixed(h, blockSize, base, cands) && d in cands
    requires !Foreign(d, blockSize, base)
    ensures var sb := DetectMdadmSuperblock(d, blockSize);
      sb.Ok? && sb.value == base.(devNumber := sb.value.devNumber)
  {
    hide DetectMdadmSuperblock, TotalBlocks, Carries;
    var i :| 0 <= i < |h.members| && h.members[i] == Some(d);
    LabelledDetects(h, blockSize, base, i);
  }

  lemma SomethingDetected(h: RaidArray, blockSize: nat, base: Superblock, cands: seq<Disk>) returns (slot: nat)
    requires Labelled(h, blockSize, base) && Mixed(h, blockSize, base, cands)
    ensures slot < |h.members| && h.members[slot].value in cands && |Detected(cands, blockSize, |cands|)| != 0
  {
    hide DetectMdadmSuperblock, TotalBlocks, Carries, Detected, Foreign;
    var d :| d in cands && Some(d) in h.members;
    var i :| 0 <= i < |h.members| && h.members[i] == Some(d);
    slot := i;
    LabelledDetects(h, blockSize, base, slot);
    var j :| 0 <= j < |cands| && cands[j] == d;
    var k := EveryDetected(cands, blockSize, |cands|, j);
  }

  /**
   * Members of a labelled array among foreign drives, in any order: the array comes back, with each offered member in
   * its own slot, if and only if the first drive that has a superblock is of the set, and the very first drive, which
   * need not be, has as many blocks as a member.
   */
  lemma MembersFindTheirSlotsIff(h: RaidArray, blockSize: nat, base: Superblock, cands: seq<Disk>)
    requires Labelled(h, blockSize, base) && Mixed(h, blockSize, base, cands)
    ensures Plan(cands, blockSize) == Ok((h.geometry, OwnSlots(h, cands))) <==>
      && OwnFirst(cands, blockSize, base)
      && Fits(cands[0], h.geometry)
  {
    PrimaryOwnIff(cands, blockSize, base);
    var slot := SomethingDetected(h, blockSize, base, cands);
    var detected := Detected(cands, blockSize, |cands|);
    var k, primary := detected[0].0, detected[0].1;
    assert cands[k] in cands;
    hide DetectMdadmSuperblock, TotalBlocks, Carries, Detected, Occupant, OwnFirst, Superblock.ToGeometry, Slots, Mixed;
    if primary.setUuid == base.setUuid {
      OwnIsLabel(h, blockSize, base, cands, cands[k]);
      SlotsOfMixed(h, blockSize, base, cands, primary);
      SameGeometry(primary, base, blockSize, TotalBlocks(cands[0], blockSize));
      DescribedIsRead(base, h.geometry, blockSize, cands[0]);
    } else {
      ForeignPrimary(h, blockSize, base, cands, primary, slot);
    }
  }

  lemma SameGeometry(p: Superblock, q: Superblock, blockSize: nat, total: nat)
    requires p == q.(devNumber := p.devNumber)
    ensures p.ToGeometry(blockSize, total) == q.ToGeometry(blockSize, total)
  {}

  /** The superblock of another set gives no member of this one a slot. */
  lemma ForeignPrimary(h: RaidArray, blockSize: nat, base: Superblock, cands: seq<Disk>, primary: Superblock, slot: nat)
    requires Labelled(h, blockSize, base) && primary.setUuid != base.setUuid
    requires slot < |h.members| && h.members[slot].value in cands
    ensures Slots(cands, blockSize, primary) != OwnSlots(h, cands)
  {
    LabelledDetects(h, blockSize, base, slot);
    hide DetectMdadmSuperblock, TotalBlocks, Carries, Occupant;
    if slot < primary.raidDisks {
      OccupantTakes(cands, blockSize, primary, slot, |cands|);
      assert Slots(cands, blockSize, primary)[slot] != OwnSlots(h, cands)[slot];
    }
  }

  /** A drive without a single block, which has no superblock. */
  function EmptyDrive(): Disk {
    Disk([], {})
  }

  /** An empty drive, then all members in order. */
  function EmptyDriveThenMembers(h: RaidArray): seq<Disk>
    requires Complete(h)
  {
    [EmptyDrive()] + seq(|h.members|, i requires 0 <= i < |h.members| => h.members[i].value)
  }

  /** Offered in front of all members, an empty drive is enough to keep the array from coming back. */
  lemma EmptyDriveInFront(h: RaidArray, blockSize: nat, base: Superblock)
    requires Labelled(h, blockSize, base)
    ensures Complete(h) && blockSize != 0
    ensures Plan(EmptyDriveThenMembers(h), blockSize) != Ok((h.geometry, h.members))
  {
    LabelledParts(h, blockSize, base);
    EmptyDoesNotFit(h, blockSize, base);
    AllOffered(h);
    hide Labelled, Fits, Plan, RaidArray.Valid, OwnFirst, Mixed;
    MixedWithEmpty(h, blockSize, base);
    MembersFindTheirSlotsIff(h, blockSize, base, EmptyDriveThenMembers(h));
  }

  lemma MixedWithEmpty(h: RaidArray, blockSize: nat, base: Superblock)
    requires blockSize != 0 && Complete(h) && |h.members| != 0
    ensures Mixed(h, blockSize, base, EmptyDriveThenMembers(h))
  {
    hide DetectMdadmSuperblock, RaidArray.Valid;
    AllOffered(h);
    EmptyHasNothing(blockSize);
    assert h.members[0] in h.members && Some(h.members[0].value) == h.members[0];
  }

  lemma AllOffered(h: RaidArray)
    requires Complete(h)
    ensures forall d | d in EmptyDriveThenMembers(h) :: d == EmptyDrive() || Some(d) in h.members
    ensures forall i | 0 <= i < |h.members| ::
      h.members[i].value in EmptyDriveThenMembers(h) && h.members[i] in h.members
    ensures OwnSlots(h, EmptyDriveThenMembers(h)) == h.members
  {
    hide RaidArray.Valid;
    var cands := EmptyDriveThenMembers(h);
    forall i | 0 <= i < |h.members|
      ensures h.members[i].value in cands
    {
      assert cands[i + 1] == h.members[i].value;
    }
  }

  lemma EmptyDoesNotFit(h: RaidArray, blockSize: nat, base: Superblock)
    requires Labelled(h, blockSize, base)
    ensures !Fits(EmptyDrive(), h.geometry)
  {
    LabelledParts(h, blockSize, base);
    hide Complete, RaidArray.Valid, RaidGeometry.Valid, Superblock.ToGeometry, Carries, TotalBlocks;
    assert Carries(h.members[0].value, blockSize, base.(devNumber := 0)) && Fits(h.members[0].value, h.geometry);
    CarriersHaveBlocks(h.members[0].value, blockSize, base.(devNumber := 0));
    DescribedIsRead(base, h.geometry, blockSize, h.members[0].value);
    DescribedIsRead(base, h.geometry, blockSize, EmptyDrive());
    WholeChunks(base, h.geometry, blockSize, 0);
    EmptyHasNothing(blockSize);
  }

  lemma CarriersHaveBlocks(disk: Disk, blockSize: nat, sb: Superblock)
    requires Carries(disk, blockSize, sb)
    ensures blockSize != 0 && TotalBlocks(disk, blockSize) != 0
  {
    hide Disk.RangeOk, Written, Superblock.WellTyped, MagicAt;
  }

  lemma EmptyHasNothing(blockSize: nat)
    requires blockSize != 0
    ensures TotalBlocks(EmptyDrive(), blockSize) == 0
    ensures DetectMdadmSuperblock(EmptyDrive(), blockSize).Err?
  {}

  /** Without foreign drives the conditions hold. */
  lemma MembersLead(h: RaidArray, blockSize: nat, base: Superblock, cands: seq<Disk>)
    requires Labelled(h, blockSize, base) && cands != [] && forall d | d in cands :: Some(d) in h.members
    ensures Mixed(h, blockSize, base, cands) && OwnFirst(cands, blockSize, base)
    ensures Fits(cands[0], h.geometry)
  {
    hide DetectMdadmSuperblock, TotalBlocks, Carries;
    assert cands[0] in cands;
    var i :| 0 <= i < |h.members| && h.members[i] == Some(cands[0]);
    LabelledDetects(h, blockSize, base, i);
    assert LeadsAt(cands, blockSize, base, 0);
  }

  /**
   * Some members of a labelled array, in any order: each is put back into its own slot and the geometry is
   * recovered.
   */
  lemma MembersFindTheirSlots(h: RaidArray, blockSize: nat, base: Superblock, cands: seq<Disk>)
    requires Labelled(h, blockSize, base) && cands != [] && forall d | d in cands :: Some(d) in h.members
    ensures Plan(cands, blockSize).Ok? && Plan(cands, blockSize).value.0 == h.geometry
    ensures var slots := Plan(cands, blockSize).value.1;
      && |slots| == |h.members|
      && forall i | 0 <= i < |slots| ::
           slots[i] == if h.members[i].value in cands then h.members[i] else None
  {
    hide Plan, TotalBlocks, Carries, Mixed, OwnFirst;
    MembersLead(h, blockSize, base, cands);
    MembersFindTheirSlotsIff(h, blockSize, base, cands);
  }

  /** Members among foreign drives, so offered that the array comes back. */
  ghost predicate Recognisable(h: RaidArray, blockSize: nat, base: Superblock, cands: seq<Disk>) {
    && Labelled(h, blockSize, base) && Mixed(h, blockSize, base, cands) && OwnFirst(cands, blockSize, base)
    && Fits(cands[0], h.geometry)
  }

  lemma AssembledDegrades(h: RaidArray, blockSize: nat, base: Superblock, cands: seq<Disk>, d: RaidArray)
    requires Recognisable(h, blockSize, base, cands)
    requires Plan(cands, blockSize) == Ok((d.geometry, d.members)) && d.Valid()
    ensures Degrades(d, h)
  {
    hide *;
    RecognisedPlan(h, blockSize, base, cands);
    OwnSlotsDegrade(h, cands, d);
  }

  lemma RecognisedPlan(h: RaidArray, blockSize: nat, base: Superblock, cands: seq<Disk>)
    requires Recognisable(h, blockSize, base, cands)
    ensures Complete(h) && Plan(cands, blockSize) == Ok((h.geometry, OwnSlots(h, cands)))
  {
    hide Plan, Labelled, OwnSlots, TotalBlocks, Mixed, OwnFirst;
    assert Complete(h) by { LabelledParts(h, blockSize, base); }
    MembersFindTheirSlotsIff(h, blockSize, base, cands);
  }

  lemma OwnSlotsDegrade(h: RaidArray, cands: seq<Disk>, d: RaidArray)
    requires Complete(h) && d.Valid() && d.geometry == h.geometry && d.members == OwnSlots(h, cands)
    ensures Degrades(d, h)
  {
    hide RaidArray.Valid, RaidGeometry.Valid;
  }

  /**
   * Whatever sufficient subset of a consistent array's members is offered, in whatever order and among whatever
   * foreign drives, the assembled array reads what the complete one does, if the array comes back at all.
   */
  lemma AssembledReadsComplete(h: RaidArray, blockSize: nat, base: Superblock, cands: seq<Disk>, d: RaidArray,
                               start: nat, count: nat)
    requires Recognisable(h, blockSize, base, cands)
    requires Consistent(h) && (h.geometry.level.Raid6? ==> h.geometry.numMembers <= 257)
    requires Plan(cands, blockSize) == Ok((d.geometry, d.members)) && d.Valid()
    ensures d.ReadResult(start, count).Ok? ==> d.ReadResult(start, count).value == h.LogicalBytes(start, count)
    ensures FullyReadable(h) ==> d.ReadResult(start, count) == h.ReadResult(start, count)
  {
    hide *;
    AssembledDegrades(h, blockSize, base, cands, d);
    DegradedReadsComplete(d, h, start, count);
  }
}
