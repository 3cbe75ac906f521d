/** NTFS runlists: signed deltas in a variable-length byte code. */
module DataRuns {
  import opened Arithmetic
  import opened Bits
  import opened ByteFields
  import opened Extents
  import opened Wrappers

  datatype NtfsBoot = NtfsBoot(partitionStartLba: nat, sectorsPerCluster: nat)

  /** The second error stands for every arithmetic overflow, at which a checked build stops. */
  datatype RunError = InvalidDataRun(offset: nat) | ArithmeticOverflow

  const U64: int := 0x1_0000_0000_0000_0000

  const I63: int := 0x8000_0000_0000_0000

  predicate IsI64(x: int) { -I63 <= x < I63 }

  // ----- numbers of up to eight bytes

  function Pow256(n: nat): (r: nat)
    ensures r > 0
  {
    if n == 0 then 1 else 256 * Pow256(n - 1)
  }

  lemma EightBytes()
    ensures Pow256(8) == U64
  {
    assert Pow256(4) == 0x1_0000_0000;
    assert Pow256(6) == 256 * 256 * Pow256(4);
    assert Pow256(8) == 256 * 256 * Pow256(6);
  }

  /** The last byte counts 256 times as much with one more byte in front. */
  lemma ScaleLast(low: nat, p: nat, last: nat)
    ensures 256 * (low + p * last) == 256 * low + (256 * p) * last
  {}

  lemma FromLeHead(s: seq<byte>)
    requires |s| != 0
    ensures FromLe(s) == s[0] as nat + 256 * FromLe(s[1..])
  {}

  lemma {:induction false} FromLeLast(s: seq<byte>)
    requires |s| != 0
    ensures FromLe(s) == FromLe(s[..|s| - 1]) + Pow256(|s| - 1) * s[|s| - 1] as nat
    ensures FromLe(s[..|s| - 1]) < Pow256(|s| - 1)
  {
    FromLeHead(s);
    if |s| > 1 {
      FromLeLast(s[1..]);
      var front := s[..|s| - 1];
      FromLeHead(front);
      assert s[1..][..|s| - 2] == front[1..];
      hide FromLe;
      ScaleLast(FromLe(front[1..]), Pow256(|s| - 2), s[|s| - 1] as nat);
    }
  }

  /** The top bit of the last byte is the sign. */
  predicate Negative(s: seq<byte>) {
    |s| != 0 && s[|s| - 1] >= 128
  }

  /** The bytes as a two's complement number. */
  function SignedLe(s: seq<byte>): int {
    if Negative(s) then FromLe(s) - Pow256(|s|) else FromLe(s)
  }

  /** A 64-bit pattern read as a signed number. */
  function AsI64(pattern: nat): int {
    if pattern >= I63 then pattern - U64 else pattern
  }

  lemma SignArithmetic(low: nat, p: nat, last: nat)
    requires low < p && last < 256
    ensures last >= 128 <==> 2 * (low + p * last) >= 256 * p
    ensures low + p * last < 256 * p
  {
    if last >= 128 {
      MulMono(128, last, p);
    } else {
      MulMono(last, 127, p);
    }
    MulMono(last, 255, p);
  }

  lemma SignBit(s: seq<byte>)
    requires |s| != 0
    ensures Negative(s) <==> 2 * FromLe(s) >= Pow256(|s|)
    ensures FromLe(s) < Pow256(|s|)
  {
    FromLeLast(s);
    SignArithmetic(FromLe(s[..|s| - 1]), Pow256(|s| - 1), s[|s| - 1] as nat);
    hide FromLe;
  }

  method DecodeUnsigned(s: seq<byte>) returns (v: nat)
    ensures v == FromLe(s)
  {
    hide FromLe;
    v := 0;
    assert FromLe(s[..0]) == 0 by { NoBytes(s[..0]); }
    for i := 0 to |s|
      invariant v == FromLe(s[..i])
    {
      FromLeLast(s[..i + 1]);
      assert s[..i + 1][..i] == s[..i];
      v := v + Pow256(i) * s[i] as nat;
    }
    assert s[..|s|] == s;
  }

  lemma NoBytes(s: seq<byte>)
    requires |s| == 0
    ensures FromLe(s) == 0
  {}

  /** Collects the bytes and, for a negative number, fills the 64-bit pattern up with ones. */
  method DecodeSigned(s: seq<byte>) returns (delta: int)
    requires 0 < |s| <= 8
    ensures delta == SignedLe(s)
  {
    hide FromLe;
    var pattern := DecodeUnsigned(s);
    EightBytes();
    SignBit(s);
    if s[|s| - 1] >= 128 {
      for i := |s| to 8
        invariant pattern == FromLe(s) + Pow256(i) - Pow256(|s|)
      {
        pattern := pattern + 255 * Pow256(i);
      }
    }
    if |s| < 8 {
      PowMono(|s|, 7);
      assert 256 * Pow256(7) == U64;
    }
    delta := AsI64(pattern);
  }

  lemma {:induction false} PowMono(a: nat, b: nat)
    requires a <= b
    ensures Pow256(a) <= Pow256(b)
    decreases b
  {
    if a < b {
      PowMono(a, b - 1);
    }
  }

  // ----- decoding

  function PlaceRun(boot: NtfsBoot, lcn: int, count: nat): Result<seq<Extent>, RunError> {
    if lcn >= 0 && count > 0 then
      var index: nat := lcn;
      var start, blocks := boot.partitionStartLba + index * boot.sectorsPerCluster, count * boot.sectorsPerCluster;
      if start >= U64 || blocks >= U64 then Err(ArithmeticOverflow) else Ok([Extent(start, blocks)])
    else Ok([])
  }

  function Prepend(a: Result<seq<Extent>, RunError>, b: Result<seq<Extent>, RunError>): Result<seq<Extent>, RunError> {
    if a.Err? then a else if b.Err? then b else Ok(a.value + b.value)
  }

  /** One run as it is coded: the widths of its two numbers and the numbers; without a delta it is sparse. */
  datatype Run = Run(lenBytes: nat, count: nat, offBytes: nat, delta: int)
  {
    function Size(): nat { 1 + lenBytes + offBytes }
  }

  /** The first run in `s`, which stands at position `at` of the runlist. */
  function FirstRun(s: seq<byte>, at: nat): (r: Result<Run, RunError>)
    requires |s| != 0
    ensures r.Ok? ==> r.value.Size() <= |s|
  {
    var lenBytes: nat, offBytes: nat := s[0] % 16, s[0] / 16;
    if 1 + lenBytes + offBytes > |s| then Err(InvalidDataRun(at + 1))
    else if lenBytes > 8 || offBytes > 8 then Err(ArithmeticOverflow)
    else
      var next := 1 + lenBytes + offBytes;
      Ok(Run(lenBytes, FromLe(s[1..1 + lenBytes]), offBytes, SignedLe(s[1 + lenBytes..next])))
  }

  /** The extents of the runs in `s`, after a run at `prevLcn`. */
  function Decoded(boot: NtfsBoot, s: seq<byte>, at: nat, prevLcn: int): Result<seq<Extent>, RunError>
    decreases |s|
  {
    if |s| == 0 || s[0] == 0 then Ok([])
    else
      var first := FirstRun(s, at);
      if first.Err? then Err(first.error)
      else
        var run, next := first.value, first.value.Size();
        if run.offBytes == 0 then Decoded(boot, s[next..], at + next, prevLcn)
        else
          var lcn := prevLcn + run.delta;
          if !IsI64(lcn) then Err(ArithmeticOverflow)
          else Prepend(PlaceRun(boot, lcn, run.count), Decoded(boot, s[next..], at + next, lcn))
  }

  lemma PrependNothing(r: Result<seq<Extent>, RunError>)
    ensures Prepend(Ok([]), r) == r
  {
    if r.Ok? {
      assert [] + r.value == r.value;
    }
  }

  lemma PrependMore(a: seq<Extent>, b: seq<Extent>, r: Result<seq<Extent>, RunError>)
    ensures Prepend(Ok(a), Prepend(Ok(b), r)) == Prepend(Ok(a + b), r)
  {
    if r.Ok? {
      assert a + (b + r.value) == a + b + r.value;
    }
  }

  /** Decodes the length, unsigned, and the delta, signed, of the run at `start`. */
  method ReadRun(runlist: seq<byte>, start: nat) returns (r: Result<Run, RunError>)
    requires start < |runlist|
    ensures r == FirstRun(runlist[start..], start)
  {
    hide FromLe, SignedLe;
    ghost var s := runlist[start..];
    var header, offset := runlist[start], start + 1;
    var lenBytes: nat, offBytes: nat := header % 16, header / 16;
    if offset + lenBytes + offBytes > |runlist| {
      return Err(InvalidDataRun(offset));
    }
    if lenBytes > 8 || offBytes > 8 {
      return Err(ArithmeticOverflow);
    }
    var clusterCount := DecodeUnsigned(runlist[offset..offset + lenBytes]);
    assert runlist[offset..offset + lenBytes] == s[1..1 + lenBytes];
    offset := offset + lenBytes;
    var lcnDelta := 0;
    if offBytes > 0 {
      lcnDelta := DecodeSigned(runlist[offset..offset + offBytes]);
    } else {
      NoDelta(s[1 + lenBytes..1 + lenBytes]);
    }
    assert runlist[offset..offset + offBytes] == s[1 + lenBytes..1 + lenBytes + offBytes];
    r := Ok(Run(lenBytes, clusterCount, offBytes, lcnDelta));
  }

  lemma NoDelta(s: seq<byte>)
    requires |s| == 0
    ensures SignedLe(s) == 0
  {}

  /** What the machine's numbers can hold, in hexadecimal. */
  lemma PlacedOrOverflows(boot: NtfsBoot, lcn: int, count: nat)
    ensures IsI64(lcn) <==> -0x8000_0000_0000_0000 <= lcn <= 0x7FFF_FFFF_FFFF_FFFF
    ensures lcn < 0 || count == 0 ==> PlaceRun(boot, lcn, count) == Ok([])
    ensures lcn >= 0 && count > 0 ==>
      var start, blocks := boot.partitionStartLba + lcn * boot.sectorsPerCluster, count * boot.sectorsPerCluster;
      PlaceRun(boot, lcn, count) ==
      if start > 0xFFFF_FFFF_FFFF_FFFF || blocks > 0xFFFF_FFFF_FFFF_FFFF then Err(ArithmeticOverflow)
      else if start >= 0 then Ok([Extent(start, blocks)]) else Ok([])
  {}

  /** Reads run after run; a sparse run has no extent and does not move the reference cluster. */
  method DecodeDataRuns(runlist: seq<byte>, boot: NtfsBoot) returns (r: Result<seq<Extent>, RunError>)
    ensures r == Decoded(boot, runlist, 0, 0)
  {
    hide FirstRun, PlaceRun, IsI64;
    var extents: seq<Extent>, offset: nat, prevLcn: int := [], 0, 0;
    assert runlist[0..] == runlist;
    PrependNothing(Decoded(boot, runlist, 0, 0));
    while offset < |runlist|
      invariant offset <= |runlist|
      invariant Decoded(boot, runlist, 0, 0) == Prepend(Ok(extents), Decoded(boot, runlist[offset..], offset, prevLcn))
    {
      var header := runlist[offset];
      if header == 0 {
        break;
      }
      var read := ReadRun(runlist, offset);
      if read.Err? {
        return Err(read.error);
      }
      var run := read.value;
      assert runlist[offset..][run.Size()..] == runlist[offset + run.Size()..];
      offset := offset + run.Size();
      if run.offBytes == 0 {
        continue;
      }
      var currentLcn := prevLcn + run.delta;
      PlacedOrOverflows(boot, currentLcn, run.count);
      if currentLcn < -0x8000_0000_0000_0000 || currentLcn > 0x7FFF_FFFF_FFFF_FFFF {
        return Err(ArithmeticOverflow);
      }
      prevLcn := currentLcn;
      ghost var behind := Decoded(boot, runlist[offset..], offset, currentLcn);
      if currentLcn >= 0 && run.count > 0 {
        var startLba := boot.partitionStartLba + currentLcn * boot.sectorsPerCluster;
        var blockCount := run.count * boot.sectorsPerCluster;
        if startLba > 0xFFFF_FFFF_FFFF_FFFF || blockCount > 0xFFFF_FFFF_FFFF_FFFF {
          return Err(ArithmeticOverflow);
        }
        PrependMore(extents, [Extent(startLba, blockCount)], behind);
        extents := extents + [Extent(startLba, blockCount)];
      } else {
        PrependNothing(behind);
      }
    }
    assert Decoded(boot, runlist[offset..], offset, prevLcn) == Ok([]);
    assert extents + [] == extents;
    r := Ok(extents);
  }

  // ----- the code the runlist is written in

  /** The widths suffice for the numbers, and the header byte is not the end mark. */
  predicate Codable(run: Run) {
    && run.lenBytes <= 8 && run.offBytes <= 8 && run.lenBytes + run.offBytes != 0
    && FitsLe(run.count, run.lenBytes)
    && FitsSigned(run.delta, run.offBytes)
  }

  /** The number has a two's complement form of `width` bytes; of none, only zero. */
  predicate FitsSigned(delta: int, width: nat) {
    0 <= 2 * delta + Pow256(width) < 2 * Pow256(width)
  }

  function Encoded(run: Run): (r: seq<byte>)
    requires Codable(run)
    ensures |r| == run.Size()
  {
    [run.offBytes * 16 + run.lenBytes] + ToLe(run.count, run.lenBytes) + ToLe(Pattern(run), run.offBytes)
  }

  /** The delta as an unsigned number of its width. */
  function Pattern(run: Run): nat
    requires FitsSigned(run.delta, run.offBytes)
  {
    if run.delta < 0 then run.delta + Pow256(run.offBytes) else run.delta
  }

  function EncodedAll(runs: seq<Run>): seq<byte>
    requires forall run | run in runs :: Codable(run)
  {
    if |runs| == 0 then []
    else
      assert runs[0] in runs;
      Encoded(runs[0]) + EncodedAll(runs[1..])
  }

  lemma {:induction false} FitsBelow(v: nat, width: nat)
    ensures FitsLe(v, width) <==> v < Pow256(width)
  {
    if width != 0 {
      FitsBelow(v / 256, width - 1);
    }
  }

  /** A signed number survives its bytes. */
  lemma SignedRoundTrip(delta: int, width: nat)
    requires width != 0 && FitsSigned(delta, width)
    ensures SignedLe(ToLe(if delta < 0 then delta + Pow256(width) else delta, width)) == delta
  {
    hide FromLe, ToLe, Pow256;
    var pattern: nat := if delta < 0 then delta + Pow256(width) else delta;
    FitsBelow(pattern, width);
    FromToLe(pattern, width);
    SignBit(ToLe(pattern, width));
  }

  /** The decoder reads the run that was written. */
  lemma FirstRunDecodes(run: Run, rest: seq<byte>, at: nat)
    requires Codable(run)
    ensures Encoded(run)[0] != 0 && FirstRun(Encoded(run) + rest, at) == Ok(run)
  {
    hide FromLe, ToLe, SignedLe, Pow256, FitsLe, FitsSigned, Encoded, Pattern;
    EncodedParts(run, rest);
    HeaderParts(run.offBytes, run.lenBytes, (Encoded(run) + rest)[0] as int);
    FromToLe(run.count, run.lenBytes);
    PatternDecodes(run);
  }

  lemma HeaderParts(high: nat, low: nat, header: int)
    requires low < 16 && header == high * 16 + low
    ensures header / 16 == high && header % 16 == low
  {
    DivModUnique(high, 16, low);
  }

  lemma PatternDecodes(run: Run)
    requires Codable(run)
    ensures SignedLe(ToLe(Pattern(run), run.offBytes)) == run.delta
  {
    hide FromLe, ToLe, SignedLe, Pow256, FitsLe, FitsSigned;
    if run.offBytes != 0 {
      SignedRoundTrip(run.delta, run.offBytes);
    } else {
      NoDelta(ToLe(Pattern(run), 0));
      ZeroWidth(run.delta);
    }
  }

  lemma EncodedParts(run: Run, rest: seq<byte>)
    requires Codable(run)
    ensures Encoded(run)[0] != 0
    ensures var s := Encoded(run) + rest;
      && s[0] as int == run.offBytes * 16 + run.lenBytes
      && s[1..1 + run.lenBytes] == ToLe(run.count, run.lenBytes)
      && s[1 + run.lenBytes..run.Size()] == ToLe(Pattern(run), run.offBytes)
  {
    hide ToLe, Pow256, FitsLe;
  }

  lemma ZeroWidth(delta: int)
    requires FitsSigned(delta, 0)
    ensures delta == 0
  {}

  /** Clusters of the run after `prevLcn`, if it has any on disk. */
  predicate OnDisk(run: Run, lcn: int) {
    run.offBytes != 0 && lcn >= 0 && run.count > 0
  }

  /** Where a run starts: each delta counts from the run before it; a sparse run has none. */
  function LcnAfter(run: Run, prevLcn: int): int {
    if run.offBytes == 0 then prevLcn else prevLcn + run.delta
  }

  /** No cluster number leaves 63 bits, and no sector number or count leaves 64. */
  predicate NoOverflow(boot: NtfsBoot, runs: seq<Run>, prevLcn: int) {
    if |runs| == 0 then true
    else
      var lcn := LcnAfter(runs[0], prevLcn);
      && (runs[0].offBytes != 0 ==> IsI64(lcn) && PlaceRun(boot, lcn, runs[0].count).Ok?)
      && NoOverflow(boot, runs[1..], lcn)
  }

  /** The extents of the runs on disk, in order. */
  function Expected(boot: NtfsBoot, runs: seq<Run>, prevLcn: int): seq<Extent> {
    if |runs| == 0 then []
    else
      var lcn := LcnAfter(runs[0], prevLcn);
      (if OnDisk(runs[0], lcn) then [ExtentOf(boot, lcn, runs[0].count)] else []) + Expected(boot, runs[1..], lcn)
  }

  function ExtentOf(boot: NtfsBoot, lcn: int, count: nat): Extent
    requires lcn >= 0
  {
    var index: nat := lcn;
    Extent(boot.partitionStartLba + index * boot.sectorsPerCluster, count * boot.sectorsPerCluster)
  }

  lemma PlaceIs(boot: NtfsBoot, lcn: int, count: nat)
    ensures var r := PlaceRun(boot, lcn, count);
      && (r.Err? ==> r.error == ArithmeticOverflow)
      && (r.Ok? ==> r.value == if lcn >= 0 && count > 0 then [ExtentOf(boot, lcn, count)] else [])
  {}

  /**
   * Decoding a written runlist, ended by a zero byte or the end of the bytes, gives the extents of its runs, and
   * reports an overflow exactly if there is one.
   */
  lemma {:induction false} DecodeInvertsEncode(boot: NtfsBoot, runs: seq<Run>, rest: seq<byte>, at: nat, prevLcn: int)
    requires (forall run | run in runs :: Codable(run)) && (|rest| != 0 ==> rest[0] == 0)
    ensures var r := Decoded(boot, EncodedAll(runs) + rest, at, prevLcn);
      r == if NoOverflow(boot, runs, prevLcn) then Ok(Expected(boot, runs, prevLcn)) else Err(ArithmeticOverflow)
    decreases |runs|
  {
    hide FirstRun, PlaceRun, IsI64, Codable, Encoded, ExtentOf, Decoded, NoOverflow, Expected, Prepend;
    if |runs| == 0 {
      assert EncodedAll(runs) + rest == rest;
      NothingDecodes(boot, rest, at, prevLcn);
    } else {
      var run, tail := runs[0], EncodedAll(runs[1..]) + rest;
      assert run in runs;
      assert EncodedAll(runs) + rest == Encoded(run) + tail;
      var lcn := LcnAfter(run, prevLcn);
      DecodeInvertsEncode(boot, runs[1..], rest, at + run.Size(), lcn);
      OneRunDecodes(boot, run, tail, at, prevLcn);
      if run.offBytes == 0 {
        SparseRun(boot, runs, prevLcn, Decoded(boot, tail, at + run.Size(), lcn));
      } else {
        PlacedRun(boot, runs, prevLcn, Decoded(boot, tail, at + run.Size(), lcn));
      }
    }
  }

  lemma NothingDecodes(boot: NtfsBoot, rest: seq<byte>, at: nat, prevLcn: int)
    requires |rest| != 0 ==> rest[0] == 0
    ensures Decoded(boot, rest, at, prevLcn) == Ok([])
    ensures NoOverflow(boot, [], prevLcn) && Expected(boot, [], prevLcn) == []
  {}

  /** How decoding goes on behind the first run. */
  lemma OneRunDecodes(boot: NtfsBoot, run: Run, tail: seq<byte>, at: nat, prevLcn: int)
    requires Codable(run)
    ensures var lcn := LcnAfter(run, prevLcn);
      var behind := Decoded(boot, tail, at + run.Size(), lcn);
      Decoded(boot, Encoded(run) + tail, at, prevLcn) ==
      if run.offBytes == 0 then behind
      else if !IsI64(lcn) then Err(ArithmeticOverflow)
      else Prepend(PlaceRun(boot, lcn, run.count), behind)
  {
    hide FirstRun, PlaceRun, IsI64, Codable, Encoded, Prepend;
    FirstRunDecodes(run, tail, at);
    var s := Encoded(run) + tail;
    assert s[run.Size()..] == tail;
  }

  lemma SparseRun(boot: NtfsBoot, runs: seq<Run>, prevLcn: int, behind: Result<seq<Extent>, RunError>)
    requires |runs| != 0 && runs[0].offBytes == 0
    requires behind == if NoOverflow(boot, runs[1..], prevLcn) then Ok(Expected(boot, runs[1..], prevLcn))
                       else Err(ArithmeticOverflow)
    ensures behind ==
      if NoOverflow(boot, runs, prevLcn) then Ok(Expected(boot, runs, prevLcn)) else Err(ArithmeticOverflow)
  {
    hide PlaceRun, IsI64, ExtentOf;
    assert [] + Expected(boot, runs[1..], prevLcn) == Expected(boot, runs[1..], prevLcn);
  }

  lemma PlacedRun(boot: NtfsBoot, runs: seq<Run>, prevLcn: int, behind: Result<seq<Extent>, RunError>)
    requires |runs| != 0 && runs[0].offBytes != 0
    requires var lcn := LcnAfter(runs[0], prevLcn);
      behind == if NoOverflow(boot, runs[1..], lcn) then Ok(Expected(boot, runs[1..], lcn)) else Err(ArithmeticOverflow)
    ensures var lcn := LcnAfter(runs[0], prevLcn);
      (if !IsI64(lcn) then Err(ArithmeticOverflow) else Prepend(PlaceRun(boot, lcn, runs[0].count), behind))
      == if NoOverflow(boot, runs, prevLcn) then Ok(Expected(boot, runs, prevLcn)) else Err(ArithmeticOverflow)
  {
    hide PlaceRun, IsI64, ExtentOf;
    var lcn := LcnAfter(runs[0], prevLcn);
    PlaceIs(boot, lcn, runs[0].count);
  }

  /** Conversely, whatever the decoder accepts is a written runlist. */
  lemma {:induction false} AcceptedIsEncoded(boot: NtfsBoot, s: seq<byte>, at: nat, prevLcn: int)
    returns (runs: seq<Run>, rest: seq<byte>)
    requires Decoded(boot, s, at, prevLcn).Ok?
    ensures (forall run | run in runs :: Codable(run)) && (|rest| != 0 ==> rest[0] == 0)
    ensures s == EncodedAll(runs) + rest
    ensures NoOverflow(boot, runs, prevLcn) && Decoded(boot, s, at, prevLcn) == Ok(Expected(boot, runs, prevLcn))
    decreases |s|
  {
    hide FirstRun, PlaceRun, IsI64, Codable, Encoded, ExtentOf, NoOverflow, Expected;
    if |s| == 0 || s[0] == 0 {
      runs, rest := [], s;
      assert EncodedAll(runs) + rest == s;
    } else {
      var run := FirstRun(s, at).value;
      FirstRunIsEncoded(s, at);
      var next := run.Size();
      var tail;
      tail, rest := AcceptedIsEncoded(boot, s[next..], at + next, LcnAfter(run, prevLcn));
      runs := [run] + tail;
      assert runs[1..] == tail;
      assert s == Encoded(run) + s[next..];
      assert s == EncodedAll(runs) + rest;
    }
    DecodeInvertsEncode(boot, runs, rest, at, prevLcn);
  }

  lemma FirstRunIsEncoded(s: seq<byte>, at: nat)
    requires |s| != 0 && s[0] != 0 && FirstRun(s, at).Ok?
    ensures var run := FirstRun(s, at).value;
      Codable(run) && s[..run.Size()] == Encoded(run)
  {
    hide FromLe, ToLe, Pow256, FitsLe, Negative;
    var run := FirstRun(s, at).value;
    var a, b := s[1..1 + run.lenBytes], s[1 + run.lenBytes..run.Size()];
    ToFromLe(a);
    ToFromLe(b);
    FitsBelow(FromLe(b), |b|);
    if |b| != 0 {
      SignBit(b);
    } else {
      NoDelta(b);
      assert Pow256(0) == 1 by { NoPower(); }
      assert ToLe(run.delta, 0) == [];
    }
    assert s[..run.Size()] == [s[0]] + a + b;
    assert s[0] as int == run.offBytes * 16 + run.lenBytes;
  }

  lemma NoPower()
    ensures Pow256(0) == 1
  {}
}
