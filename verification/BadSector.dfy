/** The record of unreadable sectors, and the marker written in their place. */
module BadSectors {
  import opened Arithmetic
  import opened Bits

  datatype UnreadableRange = UnreadableRange(startLba: nat, blockCount: nat)
  {
    function End(): nat {
      startLba + blockCount
    }
  }

  // ----- the map as a value

  datatype BadMap = BadMap(ranges: seq<UnreadableRange>, totalBlocks: nat, totalBytes: nat)
  {
    /** What recording a range does: extend the last range when it is adjacent, else add one. */
    function Record(startLba: nat, blockCount: nat, blockSize: nat): BadMap {
      if blockCount == 0 then this
      else
        var n := |ranges|;
        var merged :=
          if n > 0 && ranges[n - 1].End() == startLba
          then ranges[..n - 1] + [UnreadableRange(ranges[n - 1].startLba, ranges[n - 1].blockCount + blockCount)]
          else ranges + [UnreadableRange(startLba, blockCount)];
        BadMap(merged, totalBlocks + blockCount, totalBytes + blockCount * blockSize)
    }

    predicate IsLbaBad(lba: nat) {
      exists i | 0 <= i < |ranges| :: ranges[i].startLba <= lba < ranges[i].End()
    }

    predicate IsRangeBad(startLba: nat, count: nat) {
      exists i | 0 <= i < |ranges| :: ranges[i].startLba < startLba + count && ranges[i].End() > startLba
    }

    /** One past the last recorded sector. */
    function End(): nat {
      if |ranges| == 0 then 0 else ranges[|ranges| - 1].End()
    }

    /** Sorted, disjoint, non-empty ranges with a gap between neighbours; totals that agree with them. */
    ghost predicate WellFormed(blockSize: nat) {
      && (forall i | 0 <= i < |ranges| :: ranges[i].blockCount > 0)
      && (forall i, j | 0 <= i < j < |ranges| :: ranges[i].End() < ranges[j].startLba)
      && totalBlocks == CountBlocks(ranges)
      && totalBytes == totalBlocks * blockSize
    }
  }

  const EMPTY := BadMap([], 0, 0)

  function CountBlocks(ranges: seq<UnreadableRange>): nat {
    if |ranges| == 0 then 0 else CountBlocks(ranges[..|ranges| - 1]) + ranges[|ranges| - 1].blockCount
  }

  // ----- the map as the source keeps it

  class BadSectorMap {
    var ranges: seq<UnreadableRange>
    var totalUnreadableBlocks: nat
    var totalUnreadableBytes: nat

    function View(): BadMap
      reads this
    {
      BadMap(ranges, totalUnreadableBlocks, totalUnreadableBytes)
    }

    constructor ()
      ensures View() == EMPTY
    {
      ranges := [];
      totalUnreadableBlocks := 0;
      totalUnreadableBytes := 0;
    }

    constructor FromView(v: BadMap)
      ensures View() == v
    {
      ranges := v.ranges;
      totalUnreadableBlocks := v.totalBlocks;
      totalUnreadableBytes := v.totalBytes;
    }

    method RecordUnreadable(startLba: nat, blockCount: nat, blockSize: nat)
      modifies this
      ensures View() == old(View()).Record(startLba, blockCount, blockSize)
    {
      if blockCount == 0 {
        return;
      }
      totalUnreadableBlocks := totalUnreadableBlocks + blockCount;
      totalUnreadableBytes := totalUnreadableBytes + blockCount * blockSize;
      if |ranges| > 0 {
        var last := ranges[|ranges| - 1];
        if last.startLba + last.blockCount == startLba {
          ranges := ranges[|ranges| - 1 := last.(blockCount := last.blockCount + blockCount)];
          return;
        }
      }
      ranges := ranges + [UnreadableRange(startLba, blockCount)];
    }

    /** Fills a buffer with the repeating marker, or with zeros when the marker is empty. */
    static method FillPlaceholder(buffer: array<byte>, pattern: seq<byte>)
      modifies buffer
      ensures buffer[..] == Placeholder(pattern, buffer.Length)
    {
      if |pattern| == 0 {
        forall i | 0 <= i < buffer.Length { buffer[i] := 0; }
        return;
      }
      for i := 0 to buffer.Length
        invariant forall k | 0 <= k < i :: buffer[k] == pattern[k % |pattern|]
      {
        buffer[i] := pattern[i % |pattern|];
      }
    }
  }

  function Placeholder(pattern: seq<byte>, length: nat): (bytes: seq<byte>)
    ensures |bytes| == length
  {
    seq(length, (i: nat) => if |pattern| == 0 then 0 else pattern[i % |pattern|])
  }

  /** The marker repeats with its own period from the first byte on. */
  lemma PlaceholderPeriodic(pattern: seq<byte>, length: nat)
    requires |pattern| <= length
    ensures |pattern| != 0 ==> Placeholder(pattern, length)[..|pattern|] == pattern
    ensures forall i | |pattern| <= i < length ::
      Placeholder(pattern, length)[i] == Placeholder(pattern, length)[i - |pattern|]
  {
    var n := |pattern|;
    if n != 0 {
      forall i | 0 <= i < n
        ensures Placeholder(pattern, length)[i] == pattern[i]
      {
        ModWrap(i, n);
      }
      forall i | n <= i < length
        ensures i % n == (i - n) % n
      {
        ModPeriod(i, n);
      }
    }
  }

  // ----- recording in ascending order keeps the map a faithful set of sectors

  /** The sectors of a list of ranges. */
  ghost function Blocks(ranges: seq<UnreadableRange>): set<nat> {
    if |ranges| == 0 then {}
    else Blocks(ranges[..|ranges| - 1]) + Span(ranges[|ranges| - 1].startLba, ranges[|ranges| - 1].blockCount)
  }

  ghost function Span(startLba: nat, count: nat): (s: set<nat>)
    ensures forall l: nat :: l in s <==> startLba <= l < startLba + count
    ensures |s| == count
  {
    if count == 0 then {} else Span(startLba, count - 1) + {startLba + count - 1}
  }

  lemma BadInFront(ranges: seq<UnreadableRange>, l: nat)
    requires |ranges| != 0
    ensures (exists i | 0 <= i < |ranges| :: ranges[i].startLba <= l < ranges[i].End()) <==>
      var n := |ranges| - 1;
      || (exists i | 0 <= i < |ranges[..n]| :: ranges[..n][i].startLba <= l < ranges[..n][i].End())
      || ranges[n].startLba <= l < ranges[n].End()
  {
    var n := |ranges| - 1;
    var front := ranges[..n];
    if i :| 0 <= i < |ranges| && ranges[i].startLba <= l < ranges[i].End() {
      assert i < n ==> front[i].startLba <= l < front[i].End();
    }
    if i :| 0 <= i < |front| && front[i].startLba <= l < front[i].End() {
      assert ranges[i].startLba <= l < ranges[i].End();
    }
  }

  lemma {:induction false} BlocksAreBad(ranges: seq<UnreadableRange>, l: nat)
    ensures l in Blocks(ranges) <==> exists i | 0 <= i < |ranges| :: ranges[i].startLba <= l < ranges[i].End()
  {
    var n := |ranges|;
    if n != 0 {
      var front := ranges[..n - 1];
      BlocksAreBad(front, l);
      BadInFront(ranges, l);
    }
  }

  lemma CountAppend(front: seq<UnreadableRange>, last: UnreadableRange)
    ensures CountBlocks(front + [last]) == CountBlocks(front) + last.blockCount
  {
    assert (front + [last])[..|front|] == front;
  }

  ghost predicate Sorted(ranges: seq<UnreadableRange>) {
    && (forall i | 0 <= i < |ranges| :: ranges[i].blockCount > 0)
    && (forall i, j | 0 <= i < j < |ranges| :: ranges[i].End() < ranges[j].startLba)
  }

  lemma RecordSorted(m: BadMap, startLba: nat, count: nat, blockSize: nat)
    requires Sorted(m.ranges) && m.End() <= startLba
    ensures Sorted(m.Record(startLba, count, blockSize).ranges)
    ensures m.Record(startLba, count, blockSize).End() <= startLba + count
  {
    var n := |m.ranges|;
    if n > 0 {
      forall i | 0 <= i < n
        ensures m.ranges[i].End() <= m.End()
      {
        assert i < n - 1 ==> m.ranges[i].End() < m.ranges[n - 1].startLba;
      }
    }
  }

  lemma RecordCounts(m: BadMap, startLba: nat, count: nat, blockSize: nat)
    requires m.totalBlocks == CountBlocks(m.ranges) && m.totalBytes == m.totalBlocks * blockSize
    ensures var r := m.Record(startLba, count, blockSize);
      r.totalBlocks == CountBlocks(r.ranges) && r.totalBytes == r.totalBlocks * blockSize
  {
    var n := |m.ranges|;
    if count != 0 {
      assert (m.totalBlocks + count) * blockSize == m.totalBlocks * blockSize + count * blockSize;
      if n > 0 && m.ranges[n - 1].End() == startLba {
        CountAppend(m.ranges[..n - 1], UnreadableRange(m.ranges[n - 1].startLba, m.ranges[n - 1].blockCount + count));
      } else {
        CountAppend(m.ranges, UnreadableRange(startLba, count));
      }
    }
  }

  lemma RecordMembers(m: BadMap, startLba: nat, count: nat, blockSize: nat, l: nat)
    ensures m.Record(startLba, count, blockSize).IsLbaBad(l) <==> m.IsLbaBad(l) || startLba <= l < startLba + count
  {
    var n, r := |m.ranges|, m.Record(startLba, count, blockSize);
    if count != 0 {
      var k := |r.ranges| - 1;
      assert r.ranges[k].End() == startLba + count;
      if i :| 0 <= i < n && m.ranges[i].startLba <= l < m.ranges[i].End() {
        assert r.ranges[i].startLba <= l < r.ranges[i].End();
      }
      if startLba <= l < startLba + count {
        assert r.ranges[k].startLba <= l < r.ranges[k].End();
      }
      if i :| 0 <= i <= k && r.ranges[i].startLba <= l < r.ranges[i].End() && !(startLba <= l < startLba + count) {
        assert m.ranges[i].startLba <= l < m.ranges[i].End();
      }
    }
  }

  /** Recording at or past the end keeps the map well formed and adds exactly the recorded sectors. */
  lemma RecordKeepsOrder(m: BadMap, startLba: nat, count: nat, blockSize: nat)
    requires m.WellFormed(blockSize) && m.End() <= startLba
    ensures m.Record(startLba, count, blockSize).WellFormed(blockSize)
    ensures m.Record(startLba, count, blockSize).End() <= startLba + count
    ensures forall l: nat :: m.Record(startLba, count, blockSize).IsLbaBad(l) <==>
      m.IsLbaBad(l) || startLba <= l < startLba + count
  {
    hide BadMap.Record, BadMap.IsLbaBad;
    RecordSorted(m, startLba, count, blockSize);
    RecordCounts(m, startLba, count, blockSize);
    forall l: nat
      ensures m.Record(startLba, count, blockSize).IsLbaBad(l) <==> m.IsLbaBad(l) || startLba <= l < startLba + count
    {
      RecordMembers(m, startLba, count, blockSize, l);
    }
  }

  // ----- a whole sequence of recordings

  datatype Recording = Recording(startLba: nat, count: nat)

  function RecordAll(calls: seq<Recording>, blockSize: nat): BadMap {
    if |calls| == 0 then EMPTY
    else
      var last := calls[|calls| - 1];
      RecordAll(calls[..|calls| - 1], blockSize).Record(last.startLba, last.count, blockSize)
  }

  ghost predicate AllBefore(calls: seq<Recording>, limit: nat) {
    forall i | 0 <= i < |calls| :: calls[i].startLba + calls[i].count <= limit
  }

  ghost predicate Recorded(calls: seq<Recording>, l: nat) {
    exists i | 0 <= i < |calls| :: calls[i].startLba <= l < calls[i].startLba + calls[i].count
  }

  lemma RecordedStep(calls: seq<Recording>, l: nat)
    requires |calls| != 0
    ensures var n := |calls|;
      Recorded(calls, l) <==>
      Recorded(calls[..n - 1], l) || calls[n - 1].startLba <= l < calls[n - 1].startLba + calls[n - 1].count
  {
    var n := |calls|;
    if i :| 0 <= i < n && calls[i].startLba <= l < calls[i].startLba + calls[i].count {
      assert i < n - 1 ==> calls[..n - 1][i].startLba <= l < calls[..n - 1][i].startLba + calls[..n - 1][i].count;
    }
  }

  /** The map of any ascending sequence of recordings is a faithful set of sectors. */
  lemma {:induction false} RecordAllRefines(calls: seq<Recording>, blockSize: nat)
    requires forall i, j | 0 <= i < j < |calls| :: calls[i].startLba + calls[i].count <= calls[j].startLba
    ensures RecordAll(calls, blockSize).WellFormed(blockSize)
    ensures forall l: nat :: RecordAll(calls, blockSize).IsLbaBad(l) <==> Recorded(calls, l)
    ensures forall limit: nat :: AllBefore(calls, limit) ==> RecordAll(calls, blockSize).End() <= limit
  {
    var n := |calls|;
    if n != 0 {
      hide BadMap.Record, BadMap.IsLbaBad, BadMap.End, Recorded;
      var front, last := calls[..n - 1], calls[n - 1];
      var m := RecordAll(front, blockSize);
      RecordAllRefines(front, blockSize);
      assert AllBefore(front, last.startLba);
      RecordKeepsOrder(m, last.startLba, last.count, blockSize);
      forall l: nat
        ensures RecordAll(calls, blockSize).IsLbaBad(l) <==> Recorded(calls, l)
      {
        RecordedStep(calls, l);
      }
      forall limit: nat | AllBefore(calls, limit)
        ensures RecordAll(calls, blockSize).End() <= limit
      {
        assert last.startLba + last.count <= limit;
      }
    }
  }

  // ----- what the queries and totals mean

  lemma {:induction false} TotalIsSize(ranges: seq<UnreadableRange>)
    requires Sorted(ranges)
    ensures |Blocks(ranges)| == CountBlocks(ranges)
  {
    var n := |ranges|;
    if n != 0 {
      var front, last := ranges[..n - 1], ranges[n - 1];
      TotalIsSize(front);
      forall l | l in Blocks(front)
        ensures l !in Span(last.startLba, last.blockCount)
      {
        BlocksAreBad(front, l);
        var i :| 0 <= i < n - 1 && front[i].startLba <= l < front[i].End();
        assert ranges[i].End() < ranges[n - 1].startLba;
      }
      assert Blocks(front) * Span(last.startLba, last.blockCount) == {};
    }
  }

  /** The totals are the number of bad sectors, and that many blocks' worth of bytes. */
  lemma TotalsAreExact(m: BadMap, blockSize: nat)
    requires m.WellFormed(blockSize)
    ensures (forall l: nat :: l in Blocks(m.ranges) <==> m.IsLbaBad(l))
    ensures m.totalBlocks == |Blocks(m.ranges)| && m.totalBytes == |Blocks(m.ranges)| * blockSize
  {
    TotalIsSize(m.ranges);
    forall l: nat
      ensures l in Blocks(m.ranges) <==> m.IsLbaBad(l)
    {
      BlocksAreBad(m.ranges, l);
    }
  }

  /** A range query over at least one sector asks whether the range meets the bad sectors. */
  lemma RangeQueryIsIntersection(m: BadMap, blockSize: nat, startLba: nat, count: nat)
    requires m.WellFormed(blockSize) && count > 0
    ensures m.IsRangeBad(startLba, count) <==> exists l: nat :: startLba <= l < startLba + count && m.IsLbaBad(l)
  {
    if i :| 0 <= i < |m.ranges| && m.ranges[i].startLba < startLba + count && m.ranges[i].End() > startLba {
      var l := if m.ranges[i].startLba < startLba then startLba else m.ranges[i].startLba;
      assert m.ranges[i].startLba <= l < m.ranges[i].End();
      assert m.IsLbaBad(l);
    }
  }

  // ----- the ranges are determined by the sectors

  /** The last range is present, nothing follows it, and the sector before it is not recorded. */
  lemma LastSpan(a: seq<UnreadableRange>)
    requires Sorted(a) && |a| != 0
    ensures var x := a[|a| - 1];
      && (forall l: nat | x.startLba <= l < x.End() :: l in Blocks(a))
      && (forall l: nat | l in Blocks(a) :: l < x.End())
      && (x.startLba > 0 ==> x.startLba - 1 !in Blocks(a))
    ensures Blocks(a[..|a| - 1]) == set l | l in Blocks(a) && l < a[|a| - 1].startLba
    ensures Blocks(a) != {}
  {
    var n := |a|;
    var front, x := a[..n - 1], a[n - 1];
    assert x.startLba in Blocks(a);
    forall l: nat | l in Blocks(front)
      ensures l < x.startLba - 1
    {
      BlocksAreBad(front, l);
      var i :| 0 <= i < n - 1 && front[i].startLba <= l < front[i].End();
      assert a[i].End() < a[n - 1].startLba;
    }
  }

  /** Two sorted lists of ranges over the same sectors end in the same range. */
  lemma SameLast(a: seq<UnreadableRange>, b: seq<UnreadableRange>)
    requires Sorted(a) && Sorted(b) && Blocks(a) == Blocks(b) && |a| != 0 && |b| != 0
    ensures a[|a| - 1] == b[|b| - 1]
  {
    var x, y := a[|a| - 1], b[|b| - 1];
    LastSpan(a);
    LastSpan(b);
    assert x.End() - 1 in Blocks(b) && y.End() - 1 in Blocks(a);
    assert !(x.startLba < y.startLba) && !(y.startLba < x.startLba);
  }

  /** Well-formed maps over the same sectors list the same ranges. */
  lemma {:induction false} RangesCanonical(a: seq<UnreadableRange>, b: seq<UnreadableRange>)
    requires Sorted(a) && Sorted(b) && Blocks(a) == Blocks(b)
    ensures a == b
  {
    hide Blocks;
    EmptyBlocks(a);
    EmptyBlocks(b);
    if |a| != 0 {
      LastSpan(a);
    }
    if |b| != 0 {
      LastSpan(b);
    }
    if |a| != 0 && |b| != 0 {
      SameLast(a, b);
      var front, front' := a[..|a| - 1], b[..|b| - 1];
      RangesCanonical(front, front');
      assert a == front + [a[|a| - 1]] && b == front' + [b[|b| - 1]];
    }
  }

  lemma EmptyBlocks(a: seq<UnreadableRange>)
    ensures |a| == 0 ==> Blocks(a) == {}
  {}

  /** A well-formed map is determined by the sectors it reports. */
  lemma MapCanonical(a: BadMap, b: BadMap, blockSize: nat)
    requires a.WellFormed(blockSize) && b.WellFormed(blockSize)
    requires forall l: nat :: a.IsLbaBad(l) <==> b.IsLbaBad(l)
    ensures a == b
  {
    hide BadMap.IsLbaBad;
    TotalsAreExact(a, blockSize);
    TotalsAreExact(b, blockSize);
    assert Blocks(a.ranges) == Blocks(b.ranges);
    RangesCanonical(a.ranges, b.ranges);
  }
}
