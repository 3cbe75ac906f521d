/** The NTFS cluster bitmap, and how far a deleted file's clusters are still free. */
module NtfsBitmaps {
  import opened Arithmetic
  import opened Bits
  import opened ByteFields
  import opened DataRuns
  import opened Extents
  import opened Wrappers

  datatype MetadataConfidence = Confirmed | Partial | Low

  /** The clusters `start .. start + count`. */
  function Clusters(start: nat, count: nat): (r: seq<nat>)
    ensures |r| == count
  {
    seq(count, (i: nat) => start + i)
  }

  function StartLcn(boot: NtfsBoot, e: Extent): nat
    requires boot.sectorsPerCluster != 0
  {
    (if e.startLba >= boot.partitionStartLba then e.startLba - boot.partitionStartLba else 0) / boot.sectorsPerCluster
  }

  function ClusterCount(boot: NtfsBoot, e: Extent): nat
    requires boot.sectorsPerCluster != 0
  {
    (e.blockCount + boot.sectorsPerCluster - 1) / boot.sectorsPerCluster
  }

  /** The clusters a list of extents touches, extent after extent. */
  function ClustersOf(boot: NtfsBoot, extents: seq<Extent>): seq<nat>
    requires boot.sectorsPerCluster != 0
  {
    if |extents| == 0 then []
    else
      Clusters(StartLcn(boot, extents[0]), ClusterCount(boot, extents[0])) + ClustersOf(boot, extents[1..])
  }

  datatype NtfsBitmap = NtfsBitmap(bytes: seq<byte>)
  {
    /** The cluster's bit is zero; clusters past the end of the bitmap do not count as free. */
    predicate IsClusterFree(lcn: nat) {
      lcn / 8 < |bytes| && bytes[lcn / 8] as nat / Pow2(lcn % 8) % 2 == 0
    }

    /** The cluster's digit is zero in the number that the bitmap is, read in binary from its least digit. */
    predicate Unallocated(lcn: nat) {
      lcn < 8 * |bytes| && FromLe(bytes) / Pow2(lcn) % 2 == 0
    }

    ghost predicate AllFree(clusters: seq<nat>) {
      forall i | 0 <= i < |clusters| :: Unallocated(clusters[i])
    }

    ghost predicate AnyFree(clusters: seq<nat>) {
      exists i | 0 <= i < |clusters| :: Unallocated(clusters[i])
    }

    method EvaluateExtentsConfidence(extents: seq<Extent>, boot: NtfsBoot) returns (r: MetadataConfidence)
      requires boot.sectorsPerCluster != 0
      ensures var clusters := ClustersOf(boot, extents);
        r == if extents == [] then Low
             else if AllFree(clusters) then Confirmed
             else if AnyFree(clusters) then Partial
             else Low
    {
      hide IsClusterFree, Unallocated, StartLcn, ClusterCount, ClustersOf;
      if extents == [] {
        return Low;
      }
      var allFree, anyFree := true, false;
      ghost var done: seq<nat> := [];
      assert extents[0..] == extents;
      ClustersOfMore(boot, extents, |extents|);
      for k := 0 to |extents|
        invariant done + ClustersOf(boot, extents[k..]) == ClustersOf(boot, extents)
        invariant (allFree <==> AllFree(done)) && (anyFree <==> AnyFree(done))
      {
        var startLba, blockCount, spc := extents[k].startLba, extents[k].blockCount, boot.sectorsPerCluster;
        var relLba := if startLba >= boot.partitionStartLba then startLba - boot.partitionStartLba else 0;
        var startLcn, clusterCount := relLba / spc, (blockCount + spc - 1) / spc;
        ghost var before := done;
        RangeIs(boot, extents[k]);
        ClustersOfMore(boot, extents, k);
        for c := 0 to clusterCount
          invariant done == before + Clusters(startLcn, clusterCount)[..c]
          invariant (allFree <==> AllFree(done)) && (anyFree <==> AnyFree(done))
        {
          var lcn := startLcn + c;
          OneMore(done, lcn);
          FreeIsDigit(this, lcn);
          if IsClusterFree(lcn) {
            anyFree := true;
          } else {
            allFree := false;
          }
          done := done + [lcn];
        }
        assert done == before + Clusters(startLcn, clusterCount);
      }
      assert done + [] == done;
      return if allFree then Confirmed else if anyFree then Partial else Low;
    }

    lemma RangeIs(boot: NtfsBoot, e: Extent)
      requires boot.sectorsPerCluster != 0
      ensures StartLcn(boot, e) ==
        (if e.startLba >= boot.partitionStartLba then e.startLba - boot.partitionStartLba else 0)
        / boot.sectorsPerCluster
      ensures ClusterCount(boot, e) == (e.blockCount + boot.sectorsPerCluster - 1) / boot.sectorsPerCluster
    {}

    lemma ClustersOfMore(boot: NtfsBoot, extents: seq<Extent>, k: nat)
      requires boot.sectorsPerCluster != 0 && k <= |extents|
      ensures ClustersOf(boot, extents[k..]) ==
        if k == |extents| then []
        else Clusters(StartLcn(boot, extents[k]), ClusterCount(boot, extents[k])) + ClustersOf(boot, extents[k + 1..])
    {
      hide StartLcn, ClusterCount;
      if k < |extents| {
        assert extents[k..][1..] == extents[k + 1..];
      }
    }

    lemma OneMore(clusters: seq<nat>, lcn: nat)
      ensures AllFree(clusters + [lcn]) <==> AllFree(clusters) && Unallocated(lcn)
      ensures AnyFree(clusters + [lcn]) <==> AnyFree(clusters) || Unallocated(lcn)
    {
      hide Unallocated;
      var longer := clusters + [lcn];
      assert longer[|clusters|] == lcn;
      forall i | 0 <= i < |clusters|
        ensures longer[i] == clusters[i]
      {}
    }
  }

  // ----- which bit stands for which cluster

  /** A digit of the lowest byte. */
  lemma LowDigit(low: byte, high: nat, bit: nat)
    requires bit < 8
    ensures (low as nat + 256 * high) / Pow2(bit) % 2 == low as nat / Pow2(bit) % 2
  {
    assert Pow2(0) == 1 && Pow2(1) == 2 && Pow2(2) == 4 && Pow2(3) == 8;
    assert Pow2(4) == 16 && Pow2(5) == 32 && Pow2(6) == 64 && Pow2(7) == 128;
    hide Pow2;
    var whole := low as nat + 256 * high;
    match bit
    case 0 => EvenShift(whole, low as nat, 1, 128 * high, 128 * high);
    case 1 => EvenShift(whole, low as nat, 2, 64 * high, 128 * high);
    case 2 => EvenShift(whole, low as nat, 4, 32 * high, 128 * high);
    case 3 => EvenShift(whole, low as nat, 8, 16 * high, 128 * high);
    case 4 => EvenShift(whole, low as nat, 16, 8 * high, 128 * high);
    case 5 => EvenShift(whole, low as nat, 32, 4 * high, 128 * high);
    case 6 => EvenShift(whole, low as nat, 64, 2 * high, 128 * high);
    case 7 => EvenShift(whole, low as nat, 128, high, 128 * high);
  }

  /** Adding an even multiple of `d` leaves the last digit of the quotient by `d`. */
  lemma EvenShift(whole: nat, low: nat, d: nat, t: nat, td: nat)
    requires d != 0 && td == t * d && whole == low + 2 * td
    ensures whole / d % 2 == low / d % 2
  {
    var q, r := QuotientParts(low, d);
    AddMultiple(q, t, d);
    QuotientOf(whole, d, q + 2 * t, r);
  }

  lemma AddMultiple(q: nat, t: nat, d: nat)
    ensures (q + 2 * t) * d == q * d + 2 * (t * d)
  {}

  lemma EightMore(lcn: nat)
    requires lcn >= 8
    ensures Pow2(lcn) == 256 * Pow2(lcn - 8) && Pow2(lcn - 8) != 0
  {
    assert Pow2(lcn) == 2 * Pow2(lcn - 1) && Pow2(lcn - 1) == 2 * Pow2(lcn - 2);
    assert Pow2(lcn - 2) == 2 * Pow2(lcn - 3) && Pow2(lcn - 3) == 2 * Pow2(lcn - 4);
    assert Pow2(lcn - 4) == 2 * Pow2(lcn - 5) && Pow2(lcn - 5) == 2 * Pow2(lcn - 6);
    assert Pow2(lcn - 6) == 2 * Pow2(lcn - 7) && Pow2(lcn - 7) == 2 * Pow2(lcn - 8);
  }

  /** The bit that is tested is the cluster's digit; there is none past the end of the bitmap. */
  lemma {:induction false} FreeIsDigit(bitmap: NtfsBitmap, lcn: nat)
    ensures bitmap.IsClusterFree(lcn) <==> bitmap.Unallocated(lcn)
    decreases lcn
  {
    var bytes := bitmap.bytes;
    if lcn < 8 * |bytes| {
      var high := FromLe(bytes[1..]);
      assert FromLe(bytes) == bytes[0] as nat + 256 * high;
      hide Pow2, FromLe;
      if lcn < 8 {
        LowDigit(bytes[0], high, lcn);
      } else {
        FreeIsDigit(NtfsBitmap(bytes[1..]), lcn - 8);
        EightMore(lcn);
        DivTwice(FromLe(bytes), 256, Pow2(lcn - 8), Pow2(lcn));
        DivModUnique(high, 256, bytes[0]);
        assert bytes[1..][(lcn - 8) / 8] == bytes[lcn / 8];
      }
    }
  }

  // ----- on the extents of a runlist

  /** The clusters of the runs on disk, run after run. */
  function RunClusters(runs: seq<Run>, prevLcn: int): seq<nat> {
    if |runs| == 0 then []
    else
      var lcn := LcnAfter(runs[0], prevLcn);
      (if OnDisk(runs[0], lcn) then Clusters(lcn, runs[0].count) else []) + RunClusters(runs[1..], lcn)
  }

  /** A cluster-aligned extent touches the clusters that hold one of its sectors. */
  lemma TouchedIff(boot: NtfsBoot, e: Extent, lcn: nat)
    requires boot.sectorsPerCluster != 0 && e.startLba >= boot.partitionStartLba
    requires (e.startLba - boot.partitionStartLba) % boot.sectorsPerCluster == 0
    ensures lcn in ClustersOf(boot, [e]) <==>
      exists l: nat :: e.startLba <= l < e.startLba + e.blockCount && HoldsSector(boot, lcn, l)
  {
    var spc, first, count := boot.sectorsPerCluster, StartLcn(boot, e), ClusterCount(boot, e);
    var rel := e.startLba - boot.partitionStartLba;
    assert rel == first * spc;
    assert ClustersOf(boot, [e]) == Clusters(first, count) + ClustersOf(boot, []);
    InClusters(first, count, lcn);
    BelowQuotientIff(e.blockCount + spc - 1, spc, lcn - first);
    assert (lcn - first + 1) * spc == (lcn - first) * spc + spc && (lcn - first) * spc == lcn * spc - rel;
    if first <= lcn < first + count {
      MulMono(first, lcn, spc);
      assert HoldsSector(boot, lcn, boot.partitionStartLba + lcn * spc);
    }
    if l: nat :| e.startLba <= l < e.startLba + e.blockCount && HoldsSector(boot, lcn, l) {
      if lcn < first {
        MulMono(lcn + 1, first, spc);
      }
    }
  }

  predicate HoldsSector(boot: NtfsBoot, lcn: nat, l: nat) {
    boot.partitionStartLba + lcn * boot.sectorsPerCluster <= l
    < boot.partitionStartLba + (lcn + 1) * boot.sectorsPerCluster
  }

  lemma InClusters(start: nat, count: nat, lcn: nat)
    ensures lcn in Clusters(start, count) <==> start <= lcn < start + count
  {
    if start <= lcn < start + count {
      assert Clusters(start, count)[lcn - start] == lcn;
    }
  }

  /** Converting clusters to sectors and back loses nothing. */
  lemma ExtentClusters(boot: NtfsBoot, lcn: nat, count: nat)
    requires boot.sectorsPerCluster != 0
    ensures StartLcn(boot, ExtentOf(boot, lcn, count)) == lcn && ClusterCount(boot, ExtentOf(boot, lcn, count)) == count
  {
    var spc := boot.sectorsPerCluster;
    DivModUnique(lcn, spc, 0);
    DivModUnique(count, spc, spc - 1);
  }

  lemma {:induction false} ExtentsCoverRuns(boot: NtfsBoot, runs: seq<Run>, prevLcn: int)
    requires boot.sectorsPerCluster != 0
    ensures ClustersOf(boot, Expected(boot, runs, prevLcn)) == RunClusters(runs, prevLcn)
    ensures Expected(boot, runs, prevLcn) == [] <==> RunClusters(runs, prevLcn) == []
  {
    hide ExtentOf, StartLcn, ClusterCount;
    if |runs| != 0 {
      var lcn := LcnAfter(runs[0], prevLcn);
      var rest := Expected(boot, runs[1..], lcn);
      ExtentsCoverRuns(boot, runs[1..], lcn);
      if OnDisk(runs[0], lcn) {
        ExtentClusters(boot, lcn, runs[0].count);
        assert ([ExtentOf(boot, lcn, runs[0].count)] + rest)[1..] == rest;
      } else {
        assert [] + rest == rest;
      }
    }
  }

  /**
   * A deleted file's runlist is confirmed exactly if it has clusters and all are free, partial if some are and
   * some are not, and low if none is, sparse runs left out.
   */
  method RateRunlist(bitmap: NtfsBitmap, boot: NtfsBoot, runlist: seq<byte>, ghost runs: seq<Run>,
                     ghost rest: seq<byte>)
    returns (r: Result<MetadataConfidence, RunError>)
    requires boot.sectorsPerCluster != 0 && (forall run | run in runs :: Codable(run))
    requires (|rest| != 0 ==> rest[0] == 0) && runlist == EncodedAll(runs) + rest
    ensures r.Ok? <==> NoOverflow(boot, runs, 0)
    ensures r.Ok? ==>
      var clusters := RunClusters(runs, 0);
      && (r.value == Confirmed <==> clusters != [] && bitmap.AllFree(clusters))
      && (r.value == Partial <==> bitmap.AnyFree(clusters) && !bitmap.AllFree(clusters))
      && (r.value == Low <==> !bitmap.AnyFree(clusters))
  {
    hide NtfsBitmap.Unallocated, EncodedAll, NoOverflow, Expected, RunClusters, ClustersOf, Codable;
    DecodeInvertsEncode(boot, runs, rest, 0, 0);
    ExtentsCoverRuns(boot, runs, 0);
    var extents := DecodeDataRuns(runlist, boot);
    if extents.Err? {
      return Err(extents.error);
    }
    var confidence := bitmap.EvaluateExtentsConfidence(extents.value, boot);
    ghost var clusters := RunClusters(runs, 0);
    if clusters != [] && bitmap.AllFree(clusters) {
      assert bitmap.Unallocated(clusters[0]);
    }
    r := Ok(confidence);
  }
}
