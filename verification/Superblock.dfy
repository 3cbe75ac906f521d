/** Software RAID superblocks: the version 1 on-disk format, where it is looked for, and what it says. */
module Superblocks {
  import opened Bits
  import opened ByteFields
  import opened Layout
  import opened Wrappers

  const MD_SB_MAGIC: nat := 0xa9280c09

  const SUPERBLOCK_BYTES: nat := 4096

  datatype SuperblockError = SuperblockNotFound | CorruptedSuperblock | UnsupportedLevel

  /** The set name is kept as the bytes on disk. */
  datatype Superblock = Superblock(
    majorVersion: nat, minorVersion: nat, setUuid: seq<byte>, setName: seq<byte>,
    level: RaidLevel, layout: ParityLayout, chunkSizeSectors: nat, raidDisks: nat,
    dataOffsetSectors: nat, dataSizeSectors: nat, devNumber: nat)
  {
    /** The widths of the source's integer fields. */
    predicate WellTyped() {
      && |setUuid| == 16 && FitsLe(majorVersion, 4) && FitsLe(chunkSizeSectors, 4) && FitsLe(raidDisks, 4)
      && FitsLe(dataOffsetSectors, 8) && FitsLe(dataSizeSectors, 8) && FitsLe(devNumber, 4)
    }

    function ToGeometry(sectorSize: nat, memberCapacitySectors: nat): Result<RaidGeometry, GeometryError> {
      RaidGeometry.New(level, layout, raidDisks, chunkSizeSectors * sectorSize % 0x1_0000_0000, sectorSize,
                       dataOffsetSectors, memberCapacitySectors)
    }
  }

  function LevelCode(level: RaidLevel): nat {
    match level
    case Raid0 => 0
    case Raid5 => 5
    case Raid6 => 6
  }

  function LayoutCode(layout: ParityLayout): nat {
    match layout
    case LeftAsymmetric => 0
    case RightAsymmetric => 1
    case LeftSymmetric => 2
    case RightSymmetric => 3
  }

  function LayoutOf(code: nat): ParityLayout {
    if code == 0 then LeftAsymmetric
    else if code == 1 then RightAsymmetric
    else if code == 3 then RightSymmetric
    else LeftSymmetric
  }

  /** Without the zeros at both ends. */
  function TrimZeros(s: seq<byte>): (r: seq<byte>)
    ensures |r| <= |s|
  {
    if |s| == 0 then []
    else if s[0] == 0 then TrimZeros(s[1..])
    else if s[|s| - 1] == 0 then TrimZeros(s[..|s| - 1])
    else s
  }

  function ParseV1(buf: seq<byte>, minorHint: nat): Result<Superblock, SuperblockError> {
    if |buf| < 256 then Err(CorruptedSuperblock)
    else if FromLe(buf[0..4]) != MD_SB_MAGIC then Err(SuperblockNotFound)
    else if FromLe(buf[4..8]) != 1 then Err(CorruptedSuperblock)
    else
      var rawLevel := FromLe(buf[72..76]);
      if rawLevel != 0 && rawLevel != 5 && rawLevel != 6 then Err(UnsupportedLevel)
      else
        var level := if rawLevel == 0 then Raid0 else if rawLevel == 5 then Raid5 else Raid6;
        Ok(Superblock(
             FromLe(buf[4..8]), minorHint, buf[16..32], TrimZeros(buf[32..64]), level, LayoutOf(FromLe(buf[76..80])),
             FromLe(buf[88..92]), FromLe(buf[92..96]),
             FromLe(buf[128..136]), FromLe(buf[136..144]), FromLe(buf[160..164])))
  }

  // ----- the writer

  function NamePart(sb: Superblock): (r: seq<byte>)
    ensures |r| <= 32
  {
    if |sb.setName| < 32 then sb.setName else sb.setName[..32]
  }

  function Fields(sb: Superblock): seq<Field> {
    [ Field(0, ToLe(MD_SB_MAGIC, 4)),
      Field(4, ToLe(sb.majorVersion, 4)),
      Field(16, sb.setUuid),
      Field(32, NamePart(sb)),
      Field(72, ToLe(LevelCode(sb.level), 4)),
      Field(76, ToLe(LayoutCode(sb.layout), 4)),
      Field(88, ToLe(sb.chunkSizeSectors, 4)),
      Field(92, ToLe(sb.raidDisks, 4)),
      Field(128, ToLe(sb.dataOffsetSectors, 8)),
      Field(136, ToLe(sb.dataSizeSectors, 8)),
      Field(160, ToLe(sb.devNumber, 4)) ]
  }

  lemma FieldsInOrder(sb: Superblock, size: nat)
    requires sb.WellTyped() && 256 <= size
    ensures InOrder(Fields(sb), size)
  {
    hide ToLe, FromLe, NamePart;
    AdjacentInOrder(Fields(sb), size);
  }

  function Written(buf: seq<byte>, sb: Superblock): (r: seq<byte>)
    requires sb.WellTyped()
    ensures |r| == |buf|
  {
    if |buf| < 256 then buf
    else
      FieldsInOrder(sb, |buf|);
      WriteAll(buf, Fields(sb))
  }

  /** Magic number, version, identity, level and layout. */
  method WriteIdentity(buf: array<byte>, sb: Superblock) returns (ghost done: seq<Field>)
    requires buf.Length >= 256 && sb.WellTyped()
    modifies buf
    ensures done == Fields(sb)[..6]
    ensures InOrder(done, buf.Length) && buf[..] == WriteAll(old(buf[..]), done)
  {
    hide ToLe, FromLe, InOrder, WriteAll, FitsLe;
    ghost var was := buf[..];
    done := [];
    NothingYet(was);
    done := Store(buf, 0, ToLe(MD_SB_MAGIC, 4), was, done);
    done := Store(buf, 4, ToLe(sb.majorVersion, 4), was, done);
    done := Store(buf, 16, sb.setUuid, was, done);
    var copyLen := if |sb.setName| < 32 then |sb.setName| else 32;
    assert sb.setName[..copyLen] == NamePart(sb);
    done := Store(buf, 32, sb.setName[..copyLen], was, done);
    done := Store(buf, 72, ToLe(LevelCode(sb.level), 4), was, done);
    done := Store(buf, 76, ToLe(LayoutCode(sb.layout), 4), was, done);
  }

  /** Stores the fields one after the other; a buffer that is too short is left alone. */
  method WriteMdadm12Superblock(buf: array<byte>, sb: Superblock)
    requires sb.WellTyped()
    modifies buf
    ensures buf[..] == Written(old(buf[..]), sb)
  {
    hide ToLe, FromLe, InOrder, WriteAll, FitsLe, NamePart, LevelCode, LayoutCode;
    if buf.Length < 256 {
      return;
    }
    ghost var was := buf[..];
    ghost var done := WriteIdentity(buf, sb);
    done := Store(buf, 88, ToLe(sb.chunkSizeSectors, 4), was, done);
    done := Store(buf, 92, ToLe(sb.raidDisks, 4), was, done);
    done := Store(buf, 128, ToLe(sb.dataOffsetSectors, 8), was, done);
    done := Store(buf, 136, ToLe(sb.dataSizeSectors, 8), was, done);
    done := Store(buf, 160, ToLe(sb.devNumber, 4), was, done);
    assert done == Fields(sb);
  }

  lemma NothingYet(was: seq<byte>)
    ensures InOrder([], |was|) && WriteAll(was, []) == was
  {}

  // ----- reading back

  lemma {:induction false} TrimPadding(name: seq<byte>, zeros: seq<byte>)
    requires forall i | 0 <= i < |zeros| :: zeros[i] == 0
    ensures TrimZeros(name + zeros) == TrimZeros(name)
    decreases |name| + |zeros|
  {
    var s := name + zeros;
    if |zeros| == 0 {
      assert s == name;
    } else if |name| == 0 {
      assert s == zeros && s[1..] == [] + zeros[1..];
      TrimPadding([], zeros[1..]);
    } else if name[0] == 0 {
      assert s[1..] == name[1..] + zeros;
      TrimPadding(name[1..], zeros);
    } else {
      assert s[..|s| - 1] == name + zeros[..|zeros| - 1];
      TrimPadding(name, zeros[..|zeros| - 1]);
    }
  }

  lemma TrimKeeps(s: seq<byte>)
    ensures TrimZeros(s) == s <==> |s| != 0 ==> s[0] != 0 && s[|s| - 1] != 0
  {}

  /** The name field of a buffer that held zeros there. */
  lemma WrittenName(buf: seq<byte>, sb: Superblock)
    requires sb.WellTyped() && |buf| >= 256 && forall i | 32 <= i < 64 :: buf[i] == 0
    ensures TrimZeros(Written(buf, sb)[32..64]) == TrimZeros(NamePart(sb))
  {
    hide TrimZeros, Written;
    var w, name := Written(buf, sb), NamePart(sb);
    var zeros := seq(32 - |name|, _ => 0 as byte);
    NameAndZeros(buf, sb);
    assert w[32..64] == name + zeros;
    TrimPadding(name, zeros);
  }

  lemma NameAndZeros(buf: seq<byte>, sb: Superblock)
    requires sb.WellTyped() && |buf| >= 256
    ensures Written(buf, sb)[32..32 + |NamePart(sb)|] == NamePart(sb)
    ensures forall i | 32 + |NamePart(sb)| <= i < 64 :: Written(buf, sb)[i] == buf[i]
  {
    hide ToLe, FromLe, FitsLe, LevelCode, LayoutCode, NamePart, WriteAll, InOrder;
    FieldsInOrder(sb, |buf|);
    WriteAllHolds(buf, Fields(sb), 3);
    forall i | 32 + |NamePart(sb)| <= i < 64
      ensures Written(buf, sb)[i] == buf[i]
    {
      WriteAllElsewhere(buf, Fields(sb), i);
    }
  }

  /** Every number in a written superblock is read back. */
  lemma WrittenNumber(buf: seq<byte>, sb: Superblock, k: nat, at: nat, v: nat, width: nat)
    requires sb.WellTyped() && |buf| >= 256 && k < |Fields(sb)|
    requires Fields(sb)[k] == Field(at, ToLe(v, width)) && FitsLe(v, width) && at + width <= 256
    ensures FromLe(Written(buf, sb)[at..at + width]) == v
  {
    hide ToLe, FromLe, FitsLe;
    FieldsInOrder(sb, |buf|);
    WriteAllHolds(buf, Fields(sb), k);
    FromToLe(v, width);
  }

  lemma SmallCodesFit(v: nat)
    requires v < 256
    ensures FitsLe(v, 4)
  {
    assert v / 256 == 0;
    assert FitsLe(0, 3) && FitsLe(0, 2) && FitsLe(0, 1);
  }

  /** What a written superblock says, field by field. */
  lemma WrittenHeader(buf: seq<byte>, sb: Superblock)
    requires sb.WellTyped() && |buf| >= 256
    ensures var w := Written(buf, sb);
      && FromLe(w[0..4]) == MD_SB_MAGIC && FromLe(w[4..8]) == sb.majorVersion && w[16..32] == sb.setUuid
      && FromLe(w[72..76]) == LevelCode(sb.level) && FromLe(w[76..80]) == LayoutCode(sb.layout)
  {
    MagicFits();
    SmallCodesFit(LevelCode(sb.level));
    SmallCodesFit(LayoutCode(sb.layout));
    hide Written, FromLe, ToLe, FitsLe, NamePart;
    WrittenUuid(buf, sb);
    WrittenNumber(buf, sb, 0, 0, MD_SB_MAGIC, 4);
    WrittenNumber(buf, sb, 1, 4, sb.majorVersion, 4);
    WrittenNumber(buf, sb, 4, 72, LevelCode(sb.level), 4);
    WrittenNumber(buf, sb, 5, 76, LayoutCode(sb.layout), 4);
  }

  lemma WrittenNumbers(buf: seq<byte>, sb: Superblock)
    requires sb.WellTyped() && |buf| >= 256
    ensures var w := Written(buf, sb);
      && FromLe(w[88..92]) == sb.chunkSizeSectors && FromLe(w[92..96]) == sb.raidDisks
      && FromLe(w[128..136]) == sb.dataOffsetSectors && FromLe(w[136..144]) == sb.dataSizeSectors
      && FromLe(w[160..164]) == sb.devNumber
  {
    hide Written, FromLe, ToLe, FitsLe, NamePart;
    WrittenNumber(buf, sb, 6, 88, sb.chunkSizeSectors, 4);
    WrittenNumber(buf, sb, 7, 92, sb.raidDisks, 4);
    WrittenNumber(buf, sb, 8, 128, sb.dataOffsetSectors, 8);
    WrittenNumber(buf, sb, 9, 136, sb.dataSizeSectors, 8);
    WrittenNumber(buf, sb, 10, 160, sb.devNumber, 4);
  }

  /** Parsing a superblock written over zeros. */
  lemma WrittenParses(buf: seq<byte>, sb: Superblock, minorHint: nat)
    requires sb.WellTyped() && |buf| >= 256 && forall i | 32 <= i < 64 :: buf[i] == 0
    ensures ParseV1(Written(buf, sb), minorHint) ==
      if sb.majorVersion == 1 then Ok(sb.(minorVersion := minorHint, setName := TrimZeros(NamePart(sb))))
      else Err(CorruptedSuperblock)
  {
    WrittenHeader(buf, sb);
    WrittenNumbers(buf, sb);
    WrittenName(buf, sb);
    hide Written, TrimZeros, FromLe, FitsLe, NamePart, Superblock.WellTyped;
    assert LayoutOf(LayoutCode(sb.layout)) == sb.layout;
    assert |Written(buf, sb)| == |buf|;
  }

  /** The name survives the 32-byte field. */
  predicate NameKept(name: seq<byte>) {
    |name| <= 32 && (|name| != 0 ==> name[0] != 0 && name[|name| - 1] != 0)
  }

  /**
   * Parsing inverts writing on a zeroed buffer exactly for version 1 superblocks whose name fits its field and
   * does not begin or end with a zero.
   */
  lemma ParseInvertsWriter(buf: seq<byte>, sb: Superblock, minorHint: nat)
    requires sb.WellTyped() && |buf| >= 256 && forall i | 32 <= i < 64 :: buf[i] == 0
    ensures ParseV1(Written(buf, sb), minorHint) == Ok(sb.(minorVersion := minorHint))
      <==> sb.majorVersion == 1 && NameKept(sb.setName)
  {
    WrittenParses(buf, sb, minorHint);
    TrimKeeps(sb.setName);
    hide ParseV1, Written, TrimZeros;
    if |sb.setName| <= 32 {
      assert NamePart(sb) == sb.setName;
    }
  }

  lemma WrittenUuid(buf: seq<byte>, sb: Superblock)
    requires sb.WellTyped() && |buf| >= 256
    ensures Written(buf, sb)[16..32] == sb.setUuid
  {
    hide ToLe, FromLe, FitsLe, NamePart;
    FieldsInOrder(sb, |buf|);
    WriteAllHolds(buf, Fields(sb), 2);
  }

  lemma MagicFits()
    ensures FitsLe(MD_SB_MAGIC, 4)
  {
    assert MD_SB_MAGIC / 256 == 0xa9280c && 0xa9280c / 256 == 0xa928 && 0xa928 / 256 == 0xa9;
    assert FitsLe(0xa9, 1) && FitsLe(0xa928, 2) && FitsLe(0xa9280c, 3);
  }

  // ----- the bytes on disk

  /** A number of four bytes, written out. */
  lemma FourBytes(s: seq<byte>, a: nat, b: nat, c: nat, d: nat)
    requires |s| == 4 && a < 256 && b < 256 && c < 256 && d < 256
    ensures FromLe(s) == a + 0x100 * b + 0x1_0000 * c + 0x100_0000 * d <==> s == [a, b, c, d]
  {
    FourBytesValue(s);
    if s != [a, b, c, d] {
      BytesDiffer(s[0], s[1], s[2], s[3], a, b, c, d);
    }
  }

  lemma FourBytesValue(s: seq<byte>)
    requires |s| == 4
    ensures FromLe(s) == s[0] as nat + 0x100 * s[1] as nat + 0x1_0000 * s[2] as nat + 0x100_0000 * s[3] as nat
  {
    assert FromLe(s) == s[0] + 256 * FromLe(s[1..]);
    assert FromLe(s[1..]) == s[1] + 256 * FromLe(s[1..][1..]);
    assert FromLe(s[1..][1..]) == s[2] + 256 * FromLe(s[1..][1..][1..]);
    assert FromLe(s[1..][1..][1..]) == s[3] + 256 * FromLe(s[1..][1..][1..][1..]);
  }

  lemma BytesDiffer(p: nat, q: nat, r: nat, s: nat, a: nat, b: nat, c: nat, d: nat)
    requires p < 256 && q < 256 && r < 256 && s < 256 && a < 256 && b < 256 && c < 256 && d < 256
    requires p != a || q != b || r != c || s != d
    ensures p + 0x100 * q + 0x1_0000 * r + 0x100_0000 * s != a + 0x100 * b + 0x1_0000 * c + 0x100_0000 * d
  {}

  /** The magic number, version 1 and a level of which the array code knows the layout. */
  predicate Readable(buf: seq<byte>) {
    && |buf| >= 256 && buf[0..4] == [0x09, 0x0c, 0x28, 0xa9] && buf[4..8] == [1, 0, 0, 0]
    && buf[72] in {0, 5, 6} && buf[73..76] == [0, 0, 0]
  }

  /** What is wrong with a buffer that is not readable. */
  function Unreadable(buf: seq<byte>): SuperblockError {
    if |buf| < 256 then CorruptedSuperblock
    else if buf[0..4] != [0x09, 0x0c, 0x28, 0xa9] then SuperblockNotFound
    else if buf[4..8] != [1, 0, 0, 0] then CorruptedSuperblock
    else UnsupportedLevel
  }

  /** Which buffers are superblocks, and what is wrong with the others. */
  lemma ParsedIff(buf: seq<byte>, minorHint: nat)
    ensures ParseV1(buf, minorHint).Ok? <==> Readable(buf)
    ensures ParseV1(buf, minorHint).Ok? ==> ParseV1(buf, minorHint).value.minorVersion == minorHint
    ensures ParseV1(buf, minorHint).Err? ==> ParseV1(buf, minorHint).error == Unreadable(buf)
  {
    if |buf| >= 256 {
      hide FromLe, TrimZeros;
      FourBytes(buf[0..4], 0x09, 0x0c, 0x28, 0xa9);
      FourBytes(buf[4..8], 1, 0, 0, 0);
      FourBytes(buf[72..76], 0, 0, 0, 0);
      FourBytes(buf[72..76], 5, 0, 0, 0);
      FourBytes(buf[72..76], 6, 0, 0, 0);
    }
  }

  /** What the codes on disk mean: level by its number, and left symmetric for a layout unknown. */
  lemma ParsedCodes(buf: seq<byte>, minorHint: nat)
    requires Readable(buf)
    ensures ParseV1(buf, minorHint).Ok?
    ensures var sb := ParseV1(buf, minorHint).value;
      && sb.level == (match buf[72] case 0 => Raid0 case 5 => Raid5 case _ => Raid6)
      && sb.layout ==
         if buf[76..80] == [0, 0, 0, 0] then LeftAsymmetric
         else if buf[76..80] == [1, 0, 0, 0] then RightAsymmetric
         else if buf[76..80] == [3, 0, 0, 0] then RightSymmetric
         else LeftSymmetric
  {
    ParsedIff(buf, minorHint);
    hide FromLe, TrimZeros;
    FourBytes(buf[72..76], 0, 0, 0, 0);
    FourBytes(buf[72..76], 5, 0, 0, 0);
    FourBytes(buf[76..80], 0, 0, 0, 0);
    FourBytes(buf[76..80], 1, 0, 0, 0);
    FourBytes(buf[76..80], 3, 0, 0, 0);
  }

  /** A written superblock carries the codes of the format, byte for byte. */
  lemma WrittenCodes(buf: seq<byte>, sb: Superblock)
    requires sb.WellTyped() && |buf| >= 256
    ensures var w := Written(buf, sb);
      && w[0..4] == [0x09, 0x0c, 0x28, 0xa9]
      && w[72..76] == [match sb.level case Raid0 => 0 case Raid5 => 5 case Raid6 => 6, 0, 0, 0]
      && w[76..80] ==
         [match sb.layout
          case LeftAsymmetric => 0
          case RightAsymmetric => 1
          case LeftSymmetric => 2
          case RightSymmetric => 3, 0, 0, 0]
  {
    WrittenHeader(buf, sb);
    hide Written, FromLe, Superblock.WellTyped;
    var w := Written(buf, sb);
    FourBytes(w[0..4], 0x09, 0x0c, 0x28, 0xa9);
    FourBytes(w[72..76], LevelCode(sb.level), 0, 0, 0);
    FourBytes(w[76..80], LayoutCode(sb.layout), 0, 0, 0);
  }
}
