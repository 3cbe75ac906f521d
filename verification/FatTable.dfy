/** FAT allocation tables: entries, cluster chains, and the sectors a chain stands for. */
module FatTables {
  import opened Arithmetic
  import opened Bits
  import opened ByteFields
  import opened Extents
  import opened Wrappers

  type u32 = x: int | 0 <= x < 0x1_0000_0000

  datatype FatType = Fat12 | Fat16 | Fat32

  datatype FatError = ChainLoop(cluster: u32) | ClusterOutOfBounds(cluster: u32)

  // ----- entries

  datatype FatTable = FatTable(fatType: FatType, bytes: seq<byte>)
  {
    /** The stored value of an entry, if it lies inside the table. Products of 32-bit numbers wrap around. */
    function Entry(cluster: u32): Option<nat> {
      match fatType
      case Fat32 =>
        var offset := cluster * 4;
        if offset + 4 > |bytes| then None else Some(FromLe(bytes[offset..offset + 4]) % 0x1000_0000)
      case Fat16 =>
        var offset := cluster * 2;
        if offset + 2 > |bytes| then None else Some(FromLe(bytes[offset..offset + 2]))
      case Fat12 =>
        var offset := cluster * 3 % 0x1_0000_0000 / 2;
        if offset + 2 > |bytes| then None
        else
          var raw := FromLe(bytes[offset..offset + 2]);
          Some(if cluster % 2 == 0 then raw % 4096 else raw / 16 % 4096)
    }

    /** From this value on, an entry is bad or the end of its chain. */
    function FirstReserved(): nat {
      match fatType
      case Fat32 => 0xFFF_FFF7
      case Fat16 => 0xFFF7
      case Fat12 => 0xFF7
    }

    function GetNextCluster(cluster: u32): (next: Option<u32>)
      ensures next.Some? ==> 0 < next.value < 0xFFF_FFF7
    {
      var entry := Entry(cluster);
      if entry.None? || entry.value == 0 || entry.value >= FirstReserved() then None else Some(entry.value)
    }

    predicate IsClusterFree(cluster: u32) {
      Entry(cluster) == Some(0)
    }
  }

  /** The last entry that names a cluster. */
  function LastLink(fatType: FatType): nat {
    match fatType
    case Fat32 => 0xFFF_FFF6
    case Fat16 => 0xFFF6
    case Fat12 => 0xFF6
  }

  /** A cluster has a successor exactly if its entry lies in the table and is from 1 up to the last link. */
  lemma NextIff(t: FatTable, cluster: u32, next: u32)
    ensures t.GetNextCluster(cluster) == Some(next) <==>
      t.Entry(cluster) == Some(next) && 1 <= next <= LastLink(t.fatType)
  {
    hide FatTable.Entry;
  }

  /** Beyond the table there is no entry; a FAT12 entry is looked up where the product of 32 bits points. */
  lemma EntryInside(t: FatTable, cluster: u32, wraps: nat, product: nat)
    requires 3 * cluster == wraps * 0x1_0000_0000 + product && product < 0x1_0000_0000
    ensures var end := match t.fatType
        case Fat32 => 4 * cluster + 4
        case Fat16 => 2 * cluster + 2
        case Fat12 => product / 2 + 2;
      t.Entry(cluster).Some? <==> end <= |t.bytes|
    ensures t.fatType.Fat12? && t.Entry(cluster).Some? ==>
      var low, high := t.bytes[product / 2] as nat, t.bytes[product / 2 + 1] as nat;
      t.Entry(cluster).value == if cluster % 2 == 0 then low + 256 * (high % 16) else low / 16 + 16 * high
  {
    QuotientIs(3 * cluster, 0x1_0000_0000, wraps, product);
    if t.fatType.Fat12? && t.Entry(cluster).Some? {
      var s := t.bytes[product / 2..product / 2 + 2];
      TwoBytes(s);
      assert s[2..] == [];
      hide FromLe;
      TwelveBits(s[0] as nat, s[1] as nat);
    }
  }

  lemma TwelveBits(low: nat, high: nat)
    requires low < 256 && high < 256
    ensures (low + 256 * high) % 4096 == low + 256 * (high % 16)
    ensures (low + 256 * high) / 16 % 4096 == low / 16 + 16 * high
  {
    QuotientIs(low + 256 * high, 4096, high / 16, low + 256 * (high % 16));
    QuotientIs(low + 256 * high, 16, low / 16 + 16 * high, low % 16);
    QuotientIs(low / 16 + 16 * high, 4096, 0, low / 16 + 16 * high);
  }

  // ----- chains

  // ----- chains

  /** The cluster `n` links away, unless the chain has ended before. */
  function Walk(t: FatTable, start: u32, n: nat): Option<u32>
    decreases n
  {
    if start < 2 then None
    else if n == 0 then Some(start)
    else
      var next := t.GetNextCluster(start);
      if next.None? then None else Walk(t, next.value, n - 1)
  }

  lemma {:induction false} WalkStep(t: FatTable, start: u32, n: nat)
    ensures Walk(t, start, n).None? ==> Walk(t, start, n + 1).None?
    ensures Walk(t, start, n).Some? ==>
      var next := t.GetNextCluster(Walk(t, start, n).value);
      Walk(t, start, n + 1) == if next.Some? && next.value >= 2 then next else None
    decreases n
  {
    hide FatTable.GetNextCluster;
    if start >= 2 {
      var next := t.GetNextCluster(start);
      if next.Some? {
        if n == 0 {
          assert Walk(t, start, 1) == Walk(t, next.value, 0);
        } else {
          WalkStep(t, next.value, n - 1);
        }
      }
    }
  }

  lemma {:induction false} WalkPrefix(t: FatTable, start: u32, n: nat, m: nat)
    requires n <= m && Walk(t, start, m).Some?
    ensures Walk(t, start, n).Some?
    decreases m - n
  {
    hide Walk;
    if n < m {
      WalkPrefix(t, start, n + 1, m);
      WalkStep(t, start, n);
    }
  }

  /** Once a cluster comes back the walk goes on for ever. */
  lemma {:induction false} LoopNeverEnds(t: FatTable, start: u32, k: nat, m: nat, n: nat)
    requires k < m && Walk(t, start, m).Some? && Walk(t, start, k) == Walk(t, start, m)
    ensures Walk(t, start, n).Some?
    decreases n
  {
    if n <= m {
      WalkPrefix(t, start, n, m);
    } else {
      LoopNeverEnds(t, start, k, m, n - (m - k));
      Shift(t, start, k, m, n - m);
    }
  }

  lemma {:induction false} Shift(t: FatTable, start: u32, k: nat, m: nat, d: nat)
    requires Walk(t, start, k) == Walk(t, start, m)
    ensures Walk(t, start, k + d) == Walk(t, start, m + d)
    decreases d
  {
    hide Walk;
    if d != 0 {
      Shift(t, start, k, m, d - 1);
      WalkStep(t, start, k + d - 1);
      WalkStep(t, start, m + d - 1);
    }
  }

  ghost predicate ChainEnds(t: FatTable, start: u32) {
    exists n: nat :: Walk(t, start, n).None?
  }

  /** The clusters visited by the first `|chain|` steps, all different. */
  ghost predicate IsWalk(t: FatTable, start: u32, chain: seq<u32>) {
    && (forall i | 0 <= i < |chain| :: Walk(t, start, i) == Some(chain[i]))
    && (forall i, j | 0 <= i < j < |chain| :: chain[i] != chain[j])
  }

  lemma {:induction false} SetBelow(s: set<u32>, n: nat)
    requires forall c | c in s :: c < n
    ensures |s| <= n
    decreases n
  {
    if n != 0 {
      var last: nat := n - 1;
      if c :| c in s && c == last {
        SetBelow(s - {c}, last);
      } else {
        SetBelow(s, last);
      }
    } else if c :| c in s {
      assert false;
    }
  }

  /**
   * Follows the links from `start`. The whole chain is returned if it ends, and the first cluster that comes
   * back is reported if it does not.
   */
  method FollowChain(t: FatTable, start: u32) returns (r: Result<seq<u32>, FatError>)
    ensures r.Ok? <==> ChainEnds(t, start)
    ensures r.Ok? ==> IsWalk(t, start, r.value) && Walk(t, start, |r.value|) == None
    ensures r.Err? ==> exists k: nat, chain ::
      IsWalk(t, start, chain) && k < |chain| && r.error == ChainLoop(chain[k])
        && Walk(t, start, |chain|) == Some(chain[k])
  {
    hide Walk;
    var chain: seq<u32> := [];
    if start < 2 {
      NothingToWalk(t, start);
      return Ok(chain);
    }
    var current := start;
    var visited: set<u32> := {};
    NothingToWalk(t, start);
    while current >= 2
      invariant IsWalk(t, start, chain) && (forall c :: c in visited <==> c in chain) && |visited| == |chain|
      invariant Walk(t, start, |chain|) == if current >= 2 then Some(current) else None
      decreases 0x1_0000_0000 - |visited|
    {
      SetBelow(visited, 0x1_0000_0000);
      if current in visited {
        var k :| 0 <= k < |chain| && chain[k] == current;
        forall n: nat
          ensures Walk(t, start, n).Some?
        {
          LoopNeverEnds(t, start, k, |chain|, n);
        }
        return Err(ChainLoop(current));
      }
      SetBelow(visited + {current}, 0x1_0000_0000);
      WalkStep(t, start, |chain|);
      visited := visited + {current};
      chain := chain + [current];
      var next := t.GetNextCluster(current);
      if next.None? {
        return Ok(chain);
      }
      current := next.value;
    }
    r := Ok(chain);
  }

  lemma NothingToWalk(t: FatTable, start: u32)
    ensures Walk(t, start, 0) == if start < 2 then None else Some(start)
  {}

  // ----- entries as digits of the whole table

  /** Digit `i` of a number in base `base`. */
  function DigitAt(v: nat, base: nat, i: nat): nat
    requires base != 0
    decreases i
  {
    if i == 0 then v % base else DigitAt(v / base, base, i - 1)
  }

  lemma DropBytes(s: seq<byte>)
    ensures |s| >= 2 ==> FromLe(s) == FromLe(s[..2]) + 0x1_0000 * FromLe(s[2..]) && FromLe(s[..2]) < 0x1_0000
    ensures |s| >= 3 ==> FromLe(s) == FromLe(s[..2]) + 0x1_0000 * s[2] as nat + 0x100_0000 * FromLe(s[3..])
    ensures |s| >= 4 ==>
      FromLe(s) == FromLe(s[..4]) + 0x1_0000_0000 * FromLe(s[4..]) && FromLe(s[..4]) < 0x1_0000_0000
  {
    if |s| >= 2 {
      TwoBytes(s);
      TwoBytes(s[..2]);
      assert s[..2][2..] == [];
    }
    if |s| >= 4 {
      TwoBytes(s[2..]);
      TwoBytes(s[..4]);
      TwoBytes(s[..4][2..]);
      assert s[2..][2..] == s[4..] && s[..4][4..] == [] && s[..4][2..][2..] == [];
    }
  }

  lemma TwoBytes(s: seq<byte>)
    requires |s| >= 2
    ensures FromLe(s) == s[0] as nat + 256 * s[1] as nat + 0x1_0000 * FromLe(s[2..])
    ensures |s| >= 3 ==> FromLe(s[2..]) == s[2] as nat + 256 * FromLe(s[3..])
    ensures FromLe([]) == 0
  {
    assert FromLe(s[1..]) == s[1] as nat + 256 * FromLe(s[1..][1..]);
    assert s[1..][1..] == s[2..];
    if |s| >= 3 {
      assert s[2..][1..] == s[3..];
    }
  }

  lemma Fat16Shift(bytes: seq<byte>, cluster: u32, before: u32)
    requires cluster * 2 + 2 <= |bytes| && cluster == before + 1
    ensures FatTable(Fat16, bytes).Entry(cluster) == FatTable(Fat16, bytes[2..]).Entry(before)
  {
    hide FromLe;
    DropSlice(bytes, 2, cluster * 2, cluster * 2 + 2);
  }

  /** A FAT16 entry is the digit of its number, with the table read as one number in base 2^16. */
  lemma {:induction false} Fat16Entry(bytes: seq<byte>, cluster: u32)
    requires cluster * 2 + 2 <= |bytes|
    ensures FatTable(Fat16, bytes).Entry(cluster) == Some(DigitAt(FromLe(bytes), 0x1_0000, cluster))
    decreases cluster
  {
    DropBytes(bytes);
    if cluster == 0 {
      hide FromLe;
    } else {
      hide FromLe, FatTable.Entry;
      var before: u32 := cluster - 1;
      Fat16Shift(bytes, cluster, before);
      Fat16Entry(bytes[2..], before);
    }
  }

  lemma Fat32Shift(bytes: seq<byte>, cluster: u32, before: u32)
    requires cluster * 4 + 4 <= |bytes| && cluster == before + 1
    ensures FatTable(Fat32, bytes).Entry(cluster) == FatTable(Fat32, bytes[4..]).Entry(before)
  {
    hide FromLe;
    DropSlice(bytes, 4, cluster * 4, cluster * 4 + 4);
  }

  /** A FAT32 entry is the low 28 bits of its digit in base 2^32. */
  lemma {:induction false} Fat32Entry(bytes: seq<byte>, cluster: u32)
    requires cluster * 4 + 4 <= |bytes|
    ensures FatTable(Fat32, bytes).Entry(cluster) == Some(DigitAt(FromLe(bytes), 0x1_0000_0000, cluster) % 0x1000_0000)
    decreases cluster
  {
    DropBytes(bytes);
    if cluster == 0 {
      hide FromLe;
      assert FatTable(Fat32, bytes).Entry(0) == Some(FromLe(bytes[..4]) % 0x1000_0000);
    } else {
      hide FromLe, FatTable.Entry;
      var before: u32 := cluster - 1;
      Fat32Shift(bytes, cluster, before);
      Fat32Entry(bytes[4..], before);
    }
  }

  /** The two entries of the first three bytes. */
  lemma FirstPair(bytes: seq<byte>)
    requires |bytes| >= 2
    ensures FromLe(bytes[0..2]) % 0x1000 == FromLe(bytes) % 0x1000
    ensures |bytes| >= 3 ==> FromLe(bytes[1..3]) / 16 % 0x1000 == FromLe(bytes) / 0x1000 % 0x1000
    ensures |bytes| >= 3 ==> FromLe(bytes) / 0x1000 / 0x1000 == FromLe(bytes[3..])
  {
    hide FromLe;
    DropBytes(bytes);
    assert bytes[0..2] == bytes[..2];
    LowTwelve(FromLe(bytes[..2]), FromLe(bytes[2..]));
    if |bytes| >= 3 {
      TwoBytes(bytes);
      TwoBytes(bytes[1..3]);
      assert bytes[1..3][2..] == [];
      Nibbles(bytes[0] as nat, bytes[1] as nat, bytes[2] as nat, FromLe(bytes[3..]));
    }
  }

  lemma LowTwelve(low: nat, high: nat)
    ensures (low + 0x1_0000 * high) % 0x1000 == low % 0x1000
  {
    var q, r := low / 0x1000, low % 0x1000;
    assert low + 0x1_0000 * high == 0x1000 * (q + 16 * high) + r;
  }

  lemma Nibbles(b0: nat, b1: nat, b2: nat, rest: nat)
    requires b0 < 256 && b1 < 256 && b2 < 256
    ensures var v := b0 + 256 * b1 + 0x1_0000 * b2 + 0x100_0000 * rest;
      v / 0x1000 % 0x1000 == (b1 + 256 * b2) / 16 % 0x1000 && v / 0x1000 / 0x1000 == rest
  {
    hide *;
    var high, low := b1 / 16, b1 % 16;
    var v, digit := b0 + 256 * b1 + 0x1_0000 * b2 + 0x100_0000 * rest, high + 16 * b2;
    QuotientIs(v, 0x1000, digit + 0x1000 * rest, 256 * low + b0);
    QuotientIs(digit + 0x1000 * rest, 0x1000, rest, digit);
    QuotientIs(b1 + 256 * b2, 16, digit, low);
    QuotientIs(digit, 0x1000, 0, digit);
  }

  lemma QuotientIs(x: nat, d: nat, q: nat, r: nat)
    requires r < d && x == d * q + r
    ensures x / d == q && x % d == r
  {
    DivModUnique(q, d, r);
  }

  /** An entry's offset, where the product does not wrap around. */
  lemma Fat12Offset(cluster: u32)
    requires cluster * 3 < 0x1_0000_0000
    ensures cluster * 3 % 0x1_0000_0000 / 2 == cluster * 3 / 2
    ensures cluster >= 2 ==> (cluster - 2) * 3 / 2 == cluster * 3 / 2 - 3 && (cluster - 2) % 2 == cluster % 2
  {}

  /** Three bytes further on, the same entry has a number smaller by two. */
  lemma Fat12Shift(bytes: seq<byte>, cluster: u32, before: u32)
    requires cluster * 3 / 2 + 2 <= |bytes| && cluster * 3 < 0x1_0000_0000 && cluster == before + 2
    ensures before * 3 / 2 + 2 <= |bytes[3..]|
    ensures FatTable(Fat12, bytes).Entry(cluster) == FatTable(Fat12, bytes[3..]).Entry(before)
  {
    hide FromLe;
    Fat12Offset(cluster);
    Fat12Offset(before);
    var offset: nat := cluster * 3 / 2;
    DropSlice(bytes, 3, offset, offset + 2);
  }

  lemma Fat12Start(bytes: seq<byte>, cluster: u32)
    requires cluster < 2 && cluster * 3 / 2 + 2 <= |bytes|
    ensures FatTable(Fat12, bytes).Entry(cluster) == Some(DigitAt(FromLe(bytes), 0x1000, cluster))
  {
    hide FromLe;
    FirstPair(bytes);
    if cluster == 1 {
      assert DigitAt(FromLe(bytes), 0x1000, 1) == DigitAt(FromLe(bytes) / 0x1000, 0x1000, 0);
    }
  }

  /** A FAT12 entry is the digit of its number in base 2^12: two entries share three bytes. */
  lemma {:induction false} Fat12Entry(bytes: seq<byte>, cluster: u32)
    requires cluster * 3 / 2 + 2 <= |bytes| && cluster * 3 < 0x1_0000_0000
    ensures FatTable(Fat12, bytes).Entry(cluster) == Some(DigitAt(FromLe(bytes), 0x1000, cluster))
    decreases cluster
  {
    hide FromLe, FatTable.Entry;
    if cluster < 2 {
      Fat12Start(bytes, cluster);
    } else {
      var v, before: u32 := FromLe(bytes), cluster - 2;
      Fat12Shift(bytes, cluster, before);
      Fat12Entry(bytes[3..], before);
      assert DigitAt(v, 0x1000, cluster) == DigitAt(v / 0x1000, 0x1000, before + 1)
          == DigitAt(v / 0x1000 / 0x1000, 0x1000, before);
      FirstPair(bytes);
    }
  }

  // ----- sectors

  datatype FatBpb = FatBpb(firstDataLba: nat, sectorsPerCluster: nat)
  {
    function ClusterToLba(cluster: u32): (r: Result<nat, FatError>)
      ensures r.Ok? <==> cluster >= 2
      ensures r.Err? ==> r.error == ClusterOutOfBounds(cluster)
    {
      if cluster < 2 then Err(ClusterOutOfBounds(cluster))
      else
        var index: nat := cluster - 2;
        Ok(firstDataLba + index * sectorsPerCluster)
    }
  }

  /** The sectors `start .. start + count`, in order. */
  function Sectors(start: nat, count: nat): (r: seq<nat>)
    ensures |r| == count
  {
    seq(count, (i: nat) => start + i)
  }

  /** The sectors of a list of extents, one extent after the other. */
  function SectorsOf(extents: seq<Extent>): seq<nat> {
    if |extents| == 0 then []
    else
      var n := |extents| - 1;
      SectorsOf(extents[..n]) + Sectors(extents[n].startLba, extents[n].blockCount)
  }

  /** The sectors of a list of clusters. */
  function ClusterSectors(bpb: FatBpb, clusters: seq<u32>): seq<nat> {
    if |clusters| == 0 then []
    else
      var n := |clusters| - 1;
      var lba := bpb.ClusterToLba(clusters[n]);
      ClusterSectors(bpb, clusters[..n]) + if lba.Ok? then Sectors(lba.value, bpb.sectorsPerCluster) else []
  }

  /** The clusters of the data area are numbered from 2. */
  predicate DataClusters(clusters: seq<u32>) {
    forall i | 0 <= i < |clusters| :: clusters[i] >= 2
  }

  /** No extent begins where the one before it ends. */
  predicate MaximallyMerged(extents: seq<Extent>) {
    forall i | 0 < i < |extents| :: extents[i - 1].startLba + extents[i - 1].blockCount != extents[i].startLba
  }

  lemma SectorsJoin(start: nat, a: nat, b: nat)
    ensures Sectors(start, a) + Sectors(start + a, b) == Sectors(start, a + b)
  {}

  lemma AddExtent(extents: seq<Extent>, e: Extent)
    ensures SectorsOf(extents + [e]) == SectorsOf(extents) + Sectors(e.startLba, e.blockCount)
  {
    assert (extents + [e])[..|extents|] == extents;
  }

  lemma AddCluster(bpb: FatBpb, clusters: seq<u32>, n: nat)
    requires n < |clusters| && clusters[n] >= 2
    ensures ClusterSectors(bpb, clusters[..n + 1])
         == ClusterSectors(bpb, clusters[..n]) + Sectors(bpb.ClusterToLba(clusters[n]).value, bpb.sectorsPerCluster)
  {
    assert clusters[..n + 1][..n] == clusters[..n];
  }

  lemma StartExtent(extents: seq<Extent>, e: Extent, f: Extent)
    requires MaximallyMerged(extents + [e]) && e.startLba + e.blockCount != f.startLba
    ensures MaximallyMerged(extents + [e] + [f])
  {
    var old', new' := extents + [e], extents + [e] + [f];
    forall i | 0 < i < |new'|
      ensures new'[i - 1].startLba + new'[i - 1].blockCount != new'[i].startLba
    {
      assert i < |old'| ==> old'[i - 1].startLba + old'[i - 1].blockCount != old'[i].startLba;
    }
  }

  lemma Nothing(bpb: FatBpb)
    ensures SectorsOf([]) == [] && ClusterSectors(bpb, []) == []
    ensures MaximallyMerged([]) && forall e :: MaximallyMerged([e])
  {}

  /** Neighbouring clusters are neighbours on disk, and no others are. */
  lemma NextLba(bpb: FatBpb, prev: u32, next: u32)
    requires prev >= 2 && next >= 2
    ensures next as nat == prev as nat + 1 ==>
      bpb.ClusterToLba(next).value == bpb.ClusterToLba(prev).value + bpb.sectorsPerCluster
    ensures next as nat != prev as nat + 1 && bpb.sectorsPerCluster != 0 ==>
      bpb.ClusterToLba(next).value != bpb.ClusterToLba(prev).value + bpb.sectorsPerCluster
  {
    var p: nat, n: nat, spc := prev - 2, next - 2, bpb.sectorsPerCluster;
    assert (p + 1) * spc == p * spc + spc && (n + 1) * spc == n * spc + spc;
    if n < p + 1 {
      MulMono(n + 1, p + 1, spc);
    } else if n > p + 1 {
      MulMono(p + 2, n, spc);
      assert (p + 2) * spc == (p + 1) * spc + spc;
    }
  }

  /**
   * Merges runs of consecutive clusters. The extents hold exactly the clusters' sectors in their order, and
   * no two neighbours could be merged further.
   */
  method ClustersToExtents(bpb: FatBpb, clusters: seq<u32>) returns (r: Result<seq<Extent>, FatError>)
    ensures r.Ok? <==> DataClusters(clusters)
    ensures r.Err? ==> exists k | 0 <= k < |clusters| ::
      r.error == ClusterOutOfBounds(clusters[k]) && clusters[k] < 2 && DataClusters(clusters[..k])
    ensures r.Ok? ==> SectorsOf(r.value) == ClusterSectors(bpb, clusters)
    ensures r.Ok? && bpb.sectorsPerCluster != 0 ==> MaximallyMerged(r.value)
  {
    hide Sectors, SectorsOf, ClusterSectors, MaximallyMerged, FatBpb.ClusterToLba;
    Nothing(bpb);
    if clusters == [] {
      return Ok([]);
    }
    var spc := bpb.sectorsPerCluster;
    var first := bpb.ClusterToLba(clusters[0]);
    if first.Err? {
      assert DataClusters(clusters[..0]);
      return Err(first.error);
    }
    var extents: seq<Extent>, currentStartLba: nat, currentBlockCount: nat := [], first.value, spc;
    AddCluster(bpb, clusters, 0);
    assert clusters[..0] == [] && extents + [Extent(currentStartLba, spc)] == [Extent(currentStartLba, spc)];
    for k := 1 to |clusters|
      invariant forall j | 0 <= j < k :: clusters[j] >= 2
      invariant SectorsOf(extents) + Sectors(currentStartLba, currentBlockCount) == ClusterSectors(bpb, clusters[..k])
      invariant currentStartLba + currentBlockCount == bpb.ClusterToLba(clusters[k - 1]).value + spc
      invariant spc != 0 ==> MaximallyMerged(extents + [Extent(currentStartLba, currentBlockCount)])
    {
      var prev, next := clusters[k - 1], clusters[k];
      ghost var run := Extent(currentStartLba, currentBlockCount);
      if next as nat == prev as nat + 1 {
        NextLba(bpb, prev, next);
        AddCluster(bpb, clusters, k);
        SectorsJoin(currentStartLba, currentBlockCount, spc);
        currentBlockCount := currentBlockCount + spc;
        if spc != 0 {
          Lengthen(extents, run, currentBlockCount);
        }
      } else {
        var lba := bpb.ClusterToLba(next);
        AddExtent(extents, run);
        extents := extents + [Extent(currentStartLba, currentBlockCount)];
        if lba.Err? {
          assert DataClusters(clusters[..k]);
          return Err(lba.error);
        }
        NextLba(bpb, prev, next);
        AddCluster(bpb, clusters, k);
        currentStartLba := lba.value;
        currentBlockCount := spc;
        if spc != 0 {
          StartExtent(extents[..|extents| - 1], run, Extent(currentStartLba, currentBlockCount));
          assert extents[..|extents| - 1] + [run] == extents;
        }
      }
    }
    AddExtent(extents, Extent(currentStartLba, currentBlockCount));
    assert clusters[..|clusters|] == clusters;
    r := Ok(extents + [Extent(currentStartLba, currentBlockCount)]);
  }

  /** A longer last extent has no successor to touch. */
  lemma Lengthen(extents: seq<Extent>, e: Extent, count: nat)
    requires MaximallyMerged(extents + [e])
    ensures MaximallyMerged(extents + [e.(blockCount := count)])
  {
    var old', new' := extents + [e], extents + [e.(blockCount := count)];
    forall i | 0 < i < |new'|
      ensures new'[i - 1].startLba + new'[i - 1].blockCount != new'[i].startLba
    {
      assert old'[i - 1].startLba + old'[i - 1].blockCount != old'[i].startLba;
    }
  }

  // ----- where a file lies

  datatype DataLocation = Unresolved | Contiguous(startLba: nat, blockCount: nat) | Fragmented(extents: seq<Extent>)
  {
    function Extents(): seq<Extent> {
      match this
      case Unresolved => []
      case Contiguous(startLba, blockCount) => [Extent(startLba, blockCount)]
      case Fragmented(extents) => extents
    }
  }

  function ExtentsToLocation(extents: seq<Extent>): (r: DataLocation)
    ensures r.Extents() == extents
    ensures (r.Unresolved? <==> extents == []) && (r.Contiguous? <==> |extents| == 1)
  {
    if |extents| == 0 then Unresolved
    else if |extents| == 1 then Contiguous(extents[0].startLba, extents[0].blockCount)
    else Fragmented(extents)
  }

  /** Sector `q` of the cluster at position `p`. */
  lemma {:induction false} SectorAt(bpb: FatBpb, clusters: seq<u32>, p: nat, q: nat)
    requires DataClusters(clusters) && p < |clusters| && q < bpb.sectorsPerCluster
    ensures |ClusterSectors(bpb, clusters)| == |clusters| * bpb.sectorsPerCluster
    ensures p * bpb.sectorsPerCluster + q < |ClusterSectors(bpb, clusters)|
    ensures ClusterSectors(bpb, clusters)[p * bpb.sectorsPerCluster + q] == bpb.ClusterToLba(clusters[p]).value + q
  {
    hide FatBpb.ClusterToLba;
    var n, spc := |clusters| - 1, bpb.sectorsPerCluster;
    var front := clusters[..n];
    assert (n + 1) * spc == n * spc + spc;
    assert clusters[n] >= 2;
    if n == 0 {
      assert ClusterSectors(bpb, front) == [];
    } else {
      SectorAt(bpb, front, if p < n then p else 0, q);
    }
    MulMono(p, n, spc);
  }

  lemma ApartOnDisk(bpb: FatBpb, a: u32, b: u32)
    requires 2 <= a < b
    ensures bpb.ClusterToLba(a).value + bpb.sectorsPerCluster <= bpb.ClusterToLba(b).value
  {
    var p: nat, n: nat, spc := a - 2, b - 2, bpb.sectorsPerCluster;
    MulMono(p + 1, n, spc);
    assert (p + 1) * spc == p * spc + spc;
  }

  lemma DifferentClusters(bpb: FatBpb, clusters: seq<u32>, p: nat, q: nat, p': nat, q': nat)
    requires DataClusters(clusters) && p < |clusters| && p' < |clusters| && clusters[p] != clusters[p']
    requires q < bpb.sectorsPerCluster && q' < bpb.sectorsPerCluster
    ensures bpb.ClusterToLba(clusters[p]).value + q != bpb.ClusterToLba(clusters[p']).value + q'
  {
    hide FatBpb.ClusterToLba;
    if clusters[p] < clusters[p'] {
      ApartOnDisk(bpb, clusters[p], clusters[p']);
    } else {
      ApartOnDisk(bpb, clusters[p'], clusters[p]);
    }
  }

  lemma Locate(i: nat, spc: nat, n: nat) returns (p: nat, q: nat)
    requires spc != 0 && i < n * spc
    ensures p < n && q < spc && i == p * spc + q
  {
    p, q := i / spc, i % spc;
    DivBelow(i, spc, n);
  }

  /** Different clusters share no sector, so no sector of a chain comes twice. */
  lemma SectorsDistinct(bpb: FatBpb, clusters: seq<u32>, i: nat, j: nat)
    requires DataClusters(clusters) && forall x, y | 0 <= x < y < |clusters| :: clusters[x] != clusters[y]
    requires i < j < |ClusterSectors(bpb, clusters)|
    ensures ClusterSectors(bpb, clusters)[i] != ClusterSectors(bpb, clusters)[j]
  {
    var spc := bpb.sectorsPerCluster;
    SectorCount(bpb, clusters);
    hide FatBpb.ClusterToLba, ClusterSectors, DataClusters;
    var pi, qi := Locate(i, spc, |clusters|);
    var pj, qj := Locate(j, spc, |clusters|);
    SectorAt(bpb, clusters, pi, qi);
    SectorAt(bpb, clusters, pj, qj);
    if pi != pj {
      DifferentClusters(bpb, clusters, pi, qi, pj, qj);
    }
  }

  lemma {:induction false} SectorCount(bpb: FatBpb, clusters: seq<u32>)
    requires DataClusters(clusters)
    ensures |ClusterSectors(bpb, clusters)| == |clusters| * bpb.sectorsPerCluster
    ensures |ClusterSectors(bpb, clusters)| != 0 ==> bpb.sectorsPerCluster != 0
  {
    hide FatBpb.ClusterToLba;
    if |clusters| != 0 {
      var n, spc := |clusters| - 1, bpb.sectorsPerCluster;
      var front := clusters[..n];
      assert clusters[n] >= 2;
      SectorCount(bpb, front);
      MulStep(n, spc);
      assert |ClusterSectors(bpb, clusters)| == |ClusterSectors(bpb, front)| + spc;
    }
  }

  lemma WalkedClusters(t: FatTable, start: u32, chain: seq<u32>)
    requires IsWalk(t, start, chain)
    ensures DataClusters(chain)
  {
    forall i | 0 <= i < |chain|
      ensures chain[i] >= 2
    {
      WalkAtLeast2(t, start, i);
    }
  }

  lemma {:induction false} WalkAtLeast2(t: FatTable, start: u32, n: nat)
    requires Walk(t, start, n).Some?
    ensures Walk(t, start, n).value >= 2
    decreases n
  {
    if n != 0 {
      WalkAtLeast2(t, t.GetNextCluster(start).value, n - 1);
    }
  }

  /** Sector `q` of the cluster at position `p`, counted from the first sector of the data area, cluster 2. */
  ghost predicate AddressedAs(sectors: seq<nat>, bpb: FatBpb, clusters: seq<u32>, p: nat, q: nat)
    requires p < |clusters|
  {
    && p * bpb.sectorsPerCluster + q < |sectors|
    && sectors[p * bpb.sectorsPerCluster + q]
       == bpb.firstDataLba + (clusters[p] - 2) * bpb.sectorsPerCluster + q
  }

  lemma SectorAddress(bpb: FatBpb, clusters: seq<u32>, p: nat, q: nat)
    requires DataClusters(clusters) && p < |clusters| && q < bpb.sectorsPerCluster
    ensures AddressedAs(ClusterSectors(bpb, clusters), bpb, clusters, p, q)
  {
    SectorAt(bpb, clusters, p, q);
    hide ClusterSectors;
  }

  /**
   * The location of a live file: for every chain that ends, the sectors of the walk from its first cluster, in
   * order, none of them twice, in as few extents as possible.
   */
  method LocateLiveFile(t: FatTable, bpb: FatBpb, start: u32)
    returns (r: Result<DataLocation, FatError>, ghost chain: seq<u32>)
    ensures r.Ok? <==> ChainEnds(t, start)
    ensures r.Ok? ==>
      && IsWalk(t, start, chain) && Walk(t, start, |chain|) == None
      && SectorsOf(r.value.Extents()) == ClusterSectors(bpb, chain)
      && (bpb.sectorsPerCluster != 0 ==> MaximallyMerged(r.value.Extents()))
      && (forall i, j | 0 <= i < j < |SectorsOf(r.value.Extents())| ::
            SectorsOf(r.value.Extents())[i] != SectorsOf(r.value.Extents())[j])
      && (forall p, q | 0 <= p < |chain| && 0 <= q < bpb.sectorsPerCluster ::
            AddressedAs(SectorsOf(r.value.Extents()), bpb, chain, p, q))
    ensures r.Err? ==> r.error.ChainLoop?
  {
    hide Walk, SectorsOf, ClusterSectors, ChainEnds, MaximallyMerged, AddressedAs;
    chain := [];
    var followed := FollowChain(t, start);
    if followed.Err? {
      return Err(followed.error), chain;
    }
    chain := followed.value;
    WalkedClusters(t, start, chain);
    var extents := ClustersToExtents(bpb, followed.value);
    forall i: nat, j: nat | i < j < |ClusterSectors(bpb, chain)|
      ensures ClusterSectors(bpb, chain)[i] != ClusterSectors(bpb, chain)[j]
    {
      SectorsDistinct(bpb, chain, i, j);
    }
    forall p, q | 0 <= p < |chain| && 0 <= q < bpb.sectorsPerCluster
      ensures AddressedAs(ClusterSectors(bpb, chain), bpb, chain, p, q)
    {
      SectorAddress(bpb, chain, p, q);
    }
    r := Ok(ExtentsToLocation(extents.value));
  }

  // ----- deleted files

  datatype MetadataConfidence = Confirmed | Partial

  /** The confidence in the surviving chain of a deleted file: confirmed if all its clusters are free. */
  method RateDeletedChain(t: FatTable, chain: seq<u32>) returns (r: MetadataConfidence)
    ensures r == Confirmed <==> forall i | 0 <= i < |chain| :: t.Entry(chain[i]) == Some(0)
  {
    for i := 0 to |chain|
      invariant forall j | 0 <= j < i :: t.IsClusterFree(chain[j])
    {
      if !t.IsClusterFree(chain[i]) {
        return Partial;
      }
    }
    r := Confirmed;
  }

  /** A cluster with a successor is never free, so only a chain of one free cluster is confirmed. */
  lemma ConfirmedIffOneFreeCluster(t: FatTable, start: u32, chain: seq<u32>)
    requires start >= 2 && IsWalk(t, start, chain) && Walk(t, start, |chain|) == None
    ensures (forall i | 0 <= i < |chain| :: t.IsClusterFree(chain[i])) <==> chain == [start] && t.IsClusterFree(start)
  {
    NothingToWalk(t, start);
    hide Walk, FatTable.Entry;
    assert |chain| != 0 && chain[0] == start;
    if |chain| > 1 {
      WalkStep(t, start, 0);
      assert t.GetNextCluster(chain[0]) == Some(chain[1]);
      assert !t.IsClusterFree(chain[0]);
    }
  }
}
