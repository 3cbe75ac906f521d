/** When a resumed run ends with the right image, and what a crash in the wrong moment loses. */
module ResumedImages {
  import opened Acquisition
  import opened AcquisitionLoop
  import opened BadSectors
  import opened CrashResume
  import opened RawImages
  import opened SteadyRuns
  import opened Wrappers

  // ----- below the checkpoint, and behind it

  /** A sector of a file, reading zeros past its end. */
  function SectorOr0(file: seq<Sector>, i: nat, blockSize: nat): Sector {
    if i < |file| then file[i] else ZeroSector(blockSize)
  }

  /** The file below the resume point is `file`, padded with zeros where the file has grown. */
  ghost predicate PrefixKept(job: Job, s: State, file: seq<Sector>, from: nat)
    requires job.startLba <= from
  {
    var e := s.image.Flushed(job.blockSize);
    && |file| <= |e|
    && (s.cur == from ==> |e| == |file|)
    && (forall i | 0 <= i < from - job.startLba && i < |e| :: e[i] == SectorOr0(file, i, job.blockSize))
  }

  lemma WritePastPrefix(file: seq<Sector>, at: nat, data: seq<Sector>, blockSize: nat, i: nat)
    requires i < at && i < |WriteAt(file, at, data, blockSize)|
    ensures WriteAt(file, at, data, blockSize)[i] == SectorOr0(file, i, blockSize)
  {}

  /** What a copy step does to the flushed image. */
  lemma CopyEffect(job: Job, s: State, s': State) returns (data: seq<Sector>)
    requires WellSized(job.responses, job.blockSize) && CopyStep(job, s, s')
    ensures job.startLba <= s.cur && s'.cur == s.cur + |data|
      && s'.image == s.image.WriteBlocks(s.cur - job.startLba, data, job.blockSize)
    ensures s'.image.Flushed(job.blockSize)
         == WriteAt(s.image.Flushed(job.blockSize), s.cur - job.startLba, data, job.blockSize)
  {
    hide ReadChunk, WellSized, ChunkSectors, WriteAt, Image.Flushed, Image.WriteBlocks;
    data := NextChunk(job, s).data;
    ChunkSize(job.responses, s.strategy, job.blockSize, s.cur, ChunkSectors(s.strategy, s.cur, job.endLba), s.badMap,
              s.log);
    FlushedWrite(s.image, s.cur - job.startLba, data, job.blockSize);
  }

  lemma CopyKeepsPrefix(job: Job, plan: Plan, s: State, s': State, file: seq<Sector>, from: nat)
    requires CopiedFrom(job, plan, s, from) && CopyStep(job, s, s') && PrefixKept(job, s, file, from)
    ensures PrefixKept(job, s', file, from)
  {
    CopiedBounds(job, plan, s, from);
    hide CopiedFrom, CopyStep, Image.Flushed, WriteAt, MapUpTo;
    var data := CopyEffect(job, s, s');
    var e, at := s.image.Flushed(job.blockSize), s.cur - job.startLba;
    forall i | 0 <= i < from - job.startLba && i < |WriteAt(e, at, data, job.blockSize)|
      ensures WriteAt(e, at, data, job.blockSize)[i] == SectorOr0(e, i, job.blockSize)
    {
      WritePastPrefix(e, at, data, job.blockSize, i);
    }
  }

  lemma RunStepKeepsPrefix(job: Job, plan: Plan, s: State, s': State, file: seq<Sector>, from: nat)
    requires CopiedFrom(job, plan, s, from) && RunStep(job, s, s') && PrefixKept(job, s, file, from)
    ensures PrefixKept(job, s', file, from)
  {
    if CopyStep(job, s, s') {
      CopyKeepsPrefix(job, plan, s, s', file, from);
    } else {
      hide CopyStep, CopiedFrom, Image.Flushed;
      QuietStepKeeps(job, plan, s, s', from);
    }
  }

  lemma {:induction false} PlainTraceKeeps(job: Job, plan: Plan, trace: seq<State>, n: nat, file: seq<Sector>,
                                           from: nat)
    requires PlainTrace(job, trace) && n < |trace|
    requires CopiedFrom(job, plan, trace[0], from) && PrefixKept(job, trace[0], file, from)
    ensures CopiedFrom(job, plan, trace[n], from) && PrefixKept(job, trace[n], file, from)
  {
    hide CopiedFrom, PrefixKept, RunStep;
    if n != 0 {
      PlainTraceKeeps(job, plan, trace, n - 1, file, from);
      assert job.startLba <= from by { CopiedBounds(job, plan, trace[n - 1], from); }
      assert RunStep(job, trace[n - 1], trace[n - 1 + 1]);
      RunStepKeeps(job, plan, trace[n - 1], trace[n], from);
      RunStepKeepsPrefix(job, plan, trace[n - 1], trace[n], file, from);
    }
  }

  /** Below the stored checkpoint, the file that survived the crash already is the image of the target. */
  ghost predicate CheckpointedPartIntact(job: Job, medium: Medium, target: Plan, file: seq<Sector>, cp: nat)
    requires job.startLba <= cp
  {
    && (cp == job.Limit() ==> cp <= job.startLba + |file|)
    && forall i | 0 <= i < cp - job.startLba ::
      SectorOr0(file, i, job.blockSize) == IdealSector(job, medium, target, job.startLba + i)
  }

  /**
   * Resuming after any crash, safe or not: the finished image is that of the target plan, uninterrupted or not, if
   * and only if the file was intact below the stored checkpoint when the resumed run opened it, and the default
   * marker is the target's for every bad sector behind it.
   */
  lemma ResumeCorrectIff(job: Job, medium: Medium, plan: Plan, target: Plan, s: State, file: seq<Sector>,
                         trace: seq<State>)
    requires Steady(job.responses, medium) && plan.first.minChunk <= 1
    requires Inv(job, plan, s)
    requires PlainTrace(job, trace) && CrashTo(job, s, file, trace[0]) && trace[|trace| - 1].pc.Finished?
    ensures trace[|trace| - 1].image.file == IdealImage(job, medium, target) <==>
      && CheckpointedPartIntact(job, medium, target, file, s.stored.currentLba)
      && DefaultMarksFrom(job, medium, target, s.stored.currentLba)
  {
    hide RunStep, CrashTo, Inv, CopiedFrom, PrefixKept, Steady, IdealImage, CheckpointedPartIntact, DefaultMarksFrom,
      Plan.ResumedFrom;
    var cp, last := s.stored.currentLba, trace[|trace| - 1];
    CrashStart(job, plan, s, file, trace[0]);
    PlainTraceKeeps(job, plan.ResumedFrom(cp), trace, |trace| - 1, file, cp);
    ResumedFile(job, medium, plan, target, last, file, cp);
  }

  lemma CrashStart(job: Job, plan: Plan, s: State, file: seq<Sector>, s': State)
    requires Inv(job, plan, s) && CrashTo(job, s, file, s')
    ensures job.startLba <= s.stored.currentLba
    ensures CopiedFrom(job, plan.ResumedFrom(s.stored.currentLba), s', s.stored.currentLba)
    ensures PrefixKept(job, s', file, s.stored.currentLba)
  {
    LeftFile(job, plan, s, file);
    ResumedInForce(job, plan, s.stored.currentLba, s.stored.currentLba);
    LogKept(job, s, s'.log);
    hide BadMap.WellFormed, BadMap.IsLbaBad, SectorFinal, MayLeave, MayHaveRead, InForce, WellSized;
    assert s'.image.Flushed(job.blockSize) == file;
  }

  /** Two parts of a finished resumed image: below the checkpoint the old file, padded with zeros, and the new part. */
  lemma ResumedFile(job: Job, medium: Medium, plan: Plan, target: Plan, last: State, file: seq<Sector>, cp: nat)
    requires Steady(job.responses, medium) && plan.first.minChunk <= 1 && job.startLba <= cp
    requires CopiedFrom(job, plan.ResumedFrom(cp), last, cp) && PrefixKept(job, last, file, cp) && last.pc.Finished?
    ensures last.image.file == IdealImage(job, medium, target) <==>
      CheckpointedPartIntact(job, medium, target, file, cp) && DefaultMarksFrom(job, medium, target, cp)
  {
    ResumedTail(job, medium, plan, target, last, cp);
    ResumedHead(job, plan, last, file, cp);
    hide *;
    IdealParts(job, medium, target, last.image.file, cp);
    IntactIffHead(job, medium, target, file, last.image.file, cp);
  }

  lemma ResumedHead(job: Job, plan: Plan, last: State, file: seq<Sector>, cp: nat)
    requires job.startLba <= cp && last.pc.Finished?
    requires CopiedFrom(job, plan.ResumedFrom(cp), last, cp) && PrefixKept(job, last, file, cp)
    ensures |file| <= |last.image.file| && cp <= job.Limit() && (cp == job.Limit() ==> |last.image.file| == |file|)
    ensures forall i | 0 <= i < cp - job.startLba && i < |last.image.file| ::
      last.image.file[i] == SectorOr0(file, i, job.blockSize)
    ensures job.startLba + |last.image.file| <= job.Limit()
  {
    hide BadMap.WellFormed, BadMap.IsLbaBad, SectorFinal, InForce, MapUpTo, SectorOr0;
    assert last.image.Flushed(job.blockSize) == last.image.file;
  }

  /** An image is ideal if it is long enough and ideal below and behind the checkpoint. */
  lemma IdealParts(job: Job, medium: Medium, target: Plan, e: seq<Sector>, cp: nat)
    requires job.startLba <= cp <= job.Limit()
    ensures e == IdealImage(job, medium, target) <==>
      && job.startLba + |e| == job.Limit()
      && (forall i | 0 <= i < cp - job.startLba :: e[i] == IdealSector(job, medium, target, job.startLba + i))
      && (forall l: nat | cp <= l < job.Limit() :: e[l - job.startLba] == IdealSector(job, medium, target, l))
  {
    hide IdealSector;
    var ideal := IdealImage(job, medium, target);
    if e == ideal {
      forall l: nat | cp <= l < job.Limit()
        ensures e[l - job.startLba] == IdealSector(job, medium, target, l)
      {
        assert ideal[l - job.startLba] == IdealSector(job, medium, target, job.startLba + (l - job.startLba));
      }
    } else if job.startLba + |e| == job.Limit() {
      var i :| 0 <= i < |e| && e[i] != ideal[i];
      var l := job.startLba + i;
      assert e[l - job.startLba] != IdealSector(job, medium, target, l);
    }
  }

  lemma IntactIffHead(job: Job, medium: Medium, target: Plan, file: seq<Sector>, e: seq<Sector>, cp: nat)
    requires job.startLba <= cp <= job.Limit() && |file| <= |e| && job.startLba + |e| <= job.Limit()
    requires if cp == job.Limit() then |e| == |file| else job.startLba + |e| == job.Limit()
    requires forall i | 0 <= i < cp - job.startLba && i < |e| :: e[i] == SectorOr0(file, i, job.blockSize)
    ensures CheckpointedPartIntact(job, medium, target, file, cp) <==>
      && job.startLba + |e| == job.Limit()
      && (forall i | 0 <= i < cp - job.startLba :: e[i] == IdealSector(job, medium, target, job.startLba + i))
  {
    hide IdealSector, SectorOr0;
  }

  /** From the checkpoint on, a finished resumed run holds the medium's sectors, marked by default. */
  lemma ResumedTail(job: Job, medium: Medium, plan: Plan, target: Plan, last: State, cp: nat)
    requires Steady(job.responses, medium) && plan.first.minChunk <= 1 && job.startLba <= cp
    requires CopiedFrom(job, plan.ResumedFrom(cp), last, cp) && last.pc.Finished?
    ensures cp <= job.Limit() && (cp < job.Limit() ==> job.startLba + |last.image.file| == job.Limit())
    ensures (forall l: nat | cp <= l < job.Limit() ::
               last.image.file[l - job.startLba] == IdealSector(job, medium, target, l))
      <==> DefaultMarksFrom(job, medium, target, cp)
  {
    hide BadMap.WellFormed, BadMap.IsLbaBad, SectorFinal, Steady, Markers, InForce, MapUpTo, Plan.At, Plan.ResumedFrom;
    var e := last.image.file;
    assert last.image.Flushed(job.blockSize) == e;
    forall l: nat | cp <= l < job.Limit()
      ensures l - job.startLba < |e| && e[l - job.startLba] == medium.CopyOf(job.blockSize, DEFAULT_STRATEGY, l)
      ensures e[l - job.startLba] == IdealSector(job, medium, target, l)
        <==> (medium.bad(l) ==> SameMarker(job.blockSize, target.At(l), DEFAULT_STRATEGY))
    {
      ResumedInForce(job, plan, cp, l);
      assert plan.ResumedFrom(cp).first.minChunk <= 1 by { FirstKept(plan, cp); }
      SteadyFinal(job, last.log, medium, plan.ResumedFrom(cp), l, e[l - job.startLba], last.badMap.IsLbaBad(l));
    }
    if forall l: nat | cp <= l < job.Limit() :: e[l - job.startLba] == IdealSector(job, medium, target, l) {
      forall l: nat | job.startLba <= l < job.Limit() && cp <= l && medium.bad(l)
        ensures SameMarker(job.blockSize, target.At(l), DEFAULT_STRATEGY)
      {
        assert e[l - job.startLba] == IdealSector(job, medium, target, l);
      }
    }
  }

  lemma FirstKept(plan: Plan, lba: nat)
    ensures plan.ResumedFrom(lba).first == plan.first
  {}

  // ----- in terms of the write buffer

  /** Every buffered sector below the checkpoint is in the file, or is zero and the file reads zeros there. */
  ghost predicate BufferReached(job: Job, s: State, file: seq<Sector>) {
    && (s.stored.currentLba == job.Limit() ==> job.Limit() <= job.startLba + |file|)
    && forall i | s.image.pendingAt <= i < s.image.pendingAt + |s.image.pending|
      && job.startLba + i < s.stored.currentLba ::
      SectorOr0(file, i, job.blockSize) == s.image.pending[i - s.image.pendingAt]
  }

  /** What has been copied from a steady source is ideal. */
  lemma SteadyPrefix(job: Job, medium: Medium, plan: Plan, s: State)
    requires Steady(job.responses, medium) && plan.first.minChunk <= 1 && Inv(job, plan, s)
    ensures job.startLba <= s.cur <= job.Limit()
    ensures forall i | 0 <= i < s.cur - job.startLba ::
      i < |s.image.Flushed(job.blockSize)|
      && s.image.Flushed(job.blockSize)[i] == IdealSector(job, medium, plan, job.startLba + i)
  {
    hide BadMap.WellFormed, BadMap.IsLbaBad, SectorFinal, IdealSector, Steady, Image.Flushed, InForce, Recoverable;
    var e := s.image.Flushed(job.blockSize);
    forall i | 0 <= i < s.cur - job.startLba
      ensures i < |e| && e[i] == IdealSector(job, medium, plan, job.startLba + i)
    {
      var l := job.startLba + i;
      SteadyFinal(job, s.log, medium, plan, l, e[l - job.startLba], s.badMap.IsLbaBad(l));
    }
  }

  ghost predicate SectorIntact(job: Job, medium: Medium, target: Plan, file: seq<Sector>, i: nat) {
    SectorOr0(file, i, job.blockSize) == IdealSector(job, medium, target, job.startLba + i)
  }

  ghost predicate BufferedOk(job: Job, s: State, file: seq<Sector>, i: nat) {
    s.image.pendingAt <= i < s.image.pendingAt + |s.image.pending| ==>
      SectorOr0(file, i, job.blockSize) == s.image.pending[i - s.image.pendingAt]
  }

  /** Only the write buffer can spoil the part of the file below the checkpoint. */
  lemma IntactIffBufferReached(job: Job, medium: Medium, plan: Plan, target: Plan, s: State, file: seq<Sector>)
    requires Steady(job.responses, medium) && plan.first.minChunk <= 1
    requires Inv(job, plan, s) && MayLeave(job, s, file)
    requires forall l: nat | job.startLba <= l < s.stored.currentLba :: target.At(l) == plan.At(l)
    ensures job.startLba <= s.stored.currentLba
    ensures CheckpointedPartIntact(job, medium, target, file, s.stored.currentLba) <==> BufferReached(job, s, file)
  {
    hide *;
    InvBounds(job, plan, s);
    IntactUnfolds(job, medium, target, file, s.stored.currentLba);
    BufferUnfolds(job, s, file);
    forall i | 0 <= i < s.stored.currentLba - job.startLba
      ensures BufferedOk(job, s, file, i) <==> SectorIntact(job, medium, target, file, i)
    {
      IntactSector(job, medium, plan, target, s, file, i);
    }
  }

  lemma InvBounds(job: Job, plan: Plan, s: State)
    requires Inv(job, plan, s)
    ensures job.startLba <= s.stored.currentLba <= s.cur <= job.Limit() && s.image.pendingAt <= |s.image.file|
    ensures WellSized(job.responses, job.blockSize) && InForce(job, plan, s.strategy, s.stored.currentLba)
  {}

  lemma IntactUnfolds(job: Job, medium: Medium, target: Plan, file: seq<Sector>, cp: nat)
    requires job.startLba <= cp
    ensures CheckpointedPartIntact(job, medium, target, file, cp) <==>
      && (cp == job.Limit() ==> cp <= job.startLba + |file|)
      && forall i | 0 <= i < cp - job.startLba :: SectorIntact(job, medium, target, file, i)
  {
    hide IdealSector, SectorOr0;
    if forall i | 0 <= i < cp - job.startLba :: SectorIntact(job, medium, target, file, i) {
      forall i | 0 <= i < cp - job.startLba
        ensures SectorOr0(file, i, job.blockSize) == IdealSector(job, medium, target, job.startLba + i)
      {
        assert SectorIntact(job, medium, target, file, i);
      }
    }
  }

  lemma BufferUnfolds(job: Job, s: State, file: seq<Sector>)
    requires job.startLba <= s.stored.currentLba
    ensures BufferReached(job, s, file) <==>
      && (s.stored.currentLba == job.Limit() ==> s.stored.currentLba <= job.startLba + |file|)
      && forall i | 0 <= i < s.stored.currentLba - job.startLba :: BufferedOk(job, s, file, i)
  {
    hide SectorOr0;
    if forall i | 0 <= i < s.stored.currentLba - job.startLba :: BufferedOk(job, s, file, i) {
      forall i | s.image.pendingAt <= i < s.image.pendingAt + |s.image.pending|
        && job.startLba + i < s.stored.currentLba
        ensures SectorOr0(file, i, job.blockSize) == s.image.pending[i - s.image.pendingAt]
      {
        assert BufferedOk(job, s, file, i);
      }
    }
  }

  lemma IntactSector(job: Job, medium: Medium, plan: Plan, target: Plan, s: State, file: seq<Sector>, i: nat)
    requires Steady(job.responses, medium) && plan.first.minChunk <= 1
    requires Inv(job, plan, s) && MayLeave(job, s, file) && job.startLba + i < s.stored.currentLba
    requires forall l: nat | job.startLba <= l < s.stored.currentLba :: target.At(l) == plan.At(l)
    ensures BufferedOk(job, s, file, i) <==> SectorIntact(job, medium, target, file, i)
  {
    SteadyPrefix(job, medium, plan, s);
    LeftFile(job, plan, s, file);
    InvBounds(job, plan, s);
    assert target.At(job.startLba + i) == plan.At(job.startLba + i);
    hide CopiedFrom, Inv, Medium.CopyOf, Steady, MapUpTo, MayLeave, Image.MayCrashTo, Image.Flushed, Plan.At;
    BufferedInFlushed(s.image, job.blockSize, i);
  }

  lemma BufferedInFlushed(image: Image, blockSize: nat, i: nat)
    ensures image.pendingAt <= i < image.pendingAt + |image.pending| ==>
      i < |image.Flushed(blockSize)| && image.Flushed(blockSize)[i] == image.pending[i - image.pendingAt]
  {
    if image.pendingAt <= i < image.pendingAt + |image.pending| {
      assert image.Flushed(blockSize)[image.pendingAt + (i - image.pendingAt)] == image.pending[i - image.pendingAt];
    }
  }

  /**
   * Resuming after any crash: the finished image is the target's if and only if what the crash left in the write
   * buffer below the checkpoint had reached the file, and the default marker is the target's behind it.
   */
  lemma ResumeCorrectIffBufferReached(job: Job, medium: Medium, plan: Plan, target: Plan, s: State,
                                      file: seq<Sector>, trace: seq<State>)
    requires Steady(job.responses, medium) && plan.first.minChunk <= 1
    requires Inv(job, plan, s)
    requires forall l: nat | job.startLba <= l < s.stored.currentLba :: target.At(l) == plan.At(l)
    requires PlainTrace(job, trace) && CrashTo(job, s, file, trace[0]) && trace[|trace| - 1].pc.Finished?
    ensures trace[|trace| - 1].image.file == IdealImage(job, medium, target) <==>
      BufferReached(job, s, file) && DefaultMarksFrom(job, medium, target, s.stored.currentLba)
  {
    assert MayLeave(job, s, file);
    hide *;
    IntactIffBufferReached(job, medium, plan, target, s, file);
    ResumeCorrectIff(job, medium, plan, target, s, file, trace);
  }

  // ----- killed processes: what can be seen from the file and the checkpoint

  /** The file holds nothing but what an uninterrupted run would write. */
  ghost predicate OnlyIdeal(job: Job, medium: Medium, target: Plan, file: seq<Sector>) {
    forall i | 0 <= i < |file| :: file[i] == IdealSector(job, medium, target, job.startLba + i)
  }

  ghost predicate Pure(job: Job, medium: Medium, target: Plan, s: State) {
    OnlyIdeal(job, medium, target, s.image.file) && OnlyIdeal(job, medium, target, s.image.Flushed(job.blockSize))
  }

  predicate FromEither(a: seq<Sector>, b: seq<Sector>, sector: Sector, i: nat) {
    (i < |a| && sector == a[i]) || (i < |b| && sector == b[i])
  }

  /** A file mixed from two pure ones is pure. */
  lemma MixedIsPure(job: Job, medium: Medium, target: Plan, a: seq<Sector>, b: seq<Sector>, file: seq<Sector>)
    requires OnlyIdeal(job, medium, target, a) && OnlyIdeal(job, medium, target, b)
    requires forall i | 0 <= i < |file| :: FromEither(a, b, file[i], i)
    ensures OnlyIdeal(job, medium, target, file)
  {
    hide IdealSector;
  }

  /** A first part of a buffer that begins within the file, written out. */
  lemma PartWritten(image: Image, blockSize: nat, file: seq<Sector>)
    requires image.KilledTo(file, blockSize) && image.pendingAt <= |image.file|
    ensures image.MayCrashTo(file)
    ensures forall i | 0 <= i < |file| :: FromEither(image.file, image.Flushed(blockSize), file[i], i)
  {
    var n :| 0 <= n <= |image.pending| && file == WriteAt(image.file, image.pendingAt, image.pending[..n], blockSize);
    var part := image.pending[..n];
    hide Image.Flushed, WriteAt;
    forall i | 0 <= i < |file|
      ensures FromEither(image.file, image.Flushed(blockSize), file[i], i)
    {
      if image.pendingAt <= i < image.pendingAt + n {
        assert file[image.pendingAt + (i - image.pendingAt)] == part[i - image.pendingAt];
        BufferedInFlushed(image, blockSize, i);
      }
    }
  }

  /** The default marker has done for all sectors it has been used for: the run leaves what the target asks. */
  lemma PlannedIsTarget(job: Job, medium: Medium, plan: Plan, target: Plan, l: nat)
    requires job.startLba <= l < job.Limit() && job.Limit() <= target.resumedAt && plan.first == target.first
    requires DefaultMarksFrom(job, medium, target, plan.resumedAt)
    ensures IdealSector(job, medium, plan, l) == IdealSector(job, medium, target, l)
  {
    hide Markers;
    if l >= plan.resumedAt && medium.bad(l) {
      assert SameMarker(job.blockSize, target.At(l), DEFAULT_STRATEGY);
    }
  }

  /** Below the position of the run the flushed image is as planned, so it is pure if it is behind. */
  lemma FlushedIsPure(job: Job, medium: Medium, plan: Plan, target: Plan, s: State, e: seq<Sector>)
    requires Steady(job.responses, medium) && plan.first.minChunk <= 1 && plan.first == target.first
    requires job.Limit() <= target.resumedAt && DefaultMarksFrom(job, medium, target, plan.resumedAt)
    requires Inv(job, plan, s) && OnlyIdeal(job, medium, target, e)
    requires forall i | 0 <= s.cur - job.startLba <= i < |s.image.Flushed(job.blockSize)| ::
      i < |e| && s.image.Flushed(job.blockSize)[i] == e[i]
    ensures OnlyIdeal(job, medium, target, s.image.Flushed(job.blockSize))
  {
    SteadyPrefix(job, medium, plan, s);
    hide CopiedFrom, Inv, IdealSector, Steady, Image.Flushed, DefaultMarksFrom;
    var e' := s.image.Flushed(job.blockSize);
    forall i | 0 <= i < |e'|
      ensures e'[i] == IdealSector(job, medium, target, job.startLba + i)
    {
      if i < s.cur - job.startLba {
        PlannedIsTarget(job, medium, plan, target, job.startLba + i);
      }
    }
  }

  /** Writing the next chunk keeps the image pure. */
  lemma CopyIsPure(job: Job, medium: Medium, plan: Plan, target: Plan, s: State, s': State)
    requires Steady(job.responses, medium) && plan.first.minChunk <= 1 && plan.first == target.first
    requires job.Limit() <= target.resumedAt && DefaultMarksFrom(job, medium, target, plan.resumedAt)
    requires Inv(job, plan, s) && CopyStep(job, s, s') && Pure(job, medium, target, s)
    ensures Pure(job, medium, target, s')
  {
    CopyKeepsInv(job, plan, s, s');
    InvBounds(job, plan, s);
    hide CopyStep, Inv, Steady, DefaultMarksFrom, OnlyIdeal, Image.Flushed, WellSized, InForce;
    var data := CopyEffect(job, s, s');
    FlushedIsPure(job, medium, plan, target, s', s.image.Flushed(job.blockSize));
  }

  lemma QuietStepIsPure(job: Job, medium: Medium, target: Plan, s: State, s': State)
    requires (CheckpointStep(s, s') || FinishStep(job, s, s')) && Pure(job, medium, target, s)
    ensures Pure(job, medium, target, s')
  {
    hide OnlyIdeal;
  }

  /** A kill leaves a pure file, and one that a crash may leave. */
  lemma KillIsPure(job: Job, medium: Medium, plan: Plan, target: Plan, s: State, file: seq<Sector>)
    requires Steady(job.responses, medium) && plan.first.minChunk <= 1 && plan.first == target.first
    requires job.Limit() <= target.resumedAt && DefaultMarksFrom(job, medium, target, plan.resumedAt)
    requires Inv(job, plan, s) && Pure(job, medium, target, s) && MayKill(job, s, file)
    ensures OnlyIdeal(job, medium, target, file) && MayLeave(job, s, file)
  {
    InvBounds(job, plan, s);
    SteadyPrefix(job, medium, plan, s);
    hide Inv, Steady, DefaultMarksFrom, OnlyIdeal, WellSized, InForce, IdealSector, ReadChunk, ChunkSectors,
      Image.KilledTo, Image.MayCrashTo, WriteAt;
    if s.image.KilledTo(file, job.blockSize) {
      PartWritten(s.image, job.blockSize, file);
      MixedIsPure(job, medium, target, s.image.file, s.image.Flushed(job.blockSize), file);
    } else {
      var writing := Writing(job, s);
      assert writing.pendingAt <= |writing.file| by { NextIsAdjacent(job, plan, s); }
      PartWritten(writing, job.blockSize, file);
      WritingIsPure(job, medium, plan, target, s);
      MixedIsPure(job, medium, target, writing.file, writing.Flushed(job.blockSize), file);
    }
  }

  lemma NextIsAdjacent(job: Job, plan: Plan, s: State)
    requires Inv(job, plan, s)
    ensures 0 <= s.cur - job.startLba <= |s.image.Flushed(job.blockSize)|
  {}

  lemma WritingIsPure(job: Job, medium: Medium, plan: Plan, target: Plan, s: State)
    requires Steady(job.responses, medium) && plan.first.minChunk <= 1 && plan.first == target.first
    requires job.Limit() <= target.resumedAt && DefaultMarksFrom(job, medium, target, plan.resumedAt)
    requires Inv(job, plan, s) && Pure(job, medium, target, s) && CanCopy(job, s)
    ensures OnlyIdeal(job, medium, target, Writing(job, s).Flushed(job.blockSize))
  {
    hide Inv, Steady, DefaultMarksFrom, OnlyIdeal, ReadChunk, ChunkSectors, Image.WriteBlocks, WriteAt;
    var c := NextChunk(job, s);
    var s' := s.(pc := Copied, cur := s.cur + ChunkSectors(s.strategy, s.cur, job.endLba), badMap := c.badMap,
                 log := c.log, image := s.image.WriteBlocks(s.cur - job.startLba, c.data, job.blockSize));
    CopyIsPure(job, medium, plan, target, s, s');
    FlushedWrite(s.image, s.cur - job.startLba, c.data, job.blockSize);
  }

  lemma DefaultMarksLater(job: Job, medium: Medium, target: Plan, from: nat, later: nat)
    requires DefaultMarksFrom(job, medium, target, from) && from <= later
    ensures DefaultMarksFrom(job, medium, target, later)
  {
    hide SameMarker;
  }

  lemma PlanLater(plan: Plan, lba: nat)
    ensures plan.ResumedFrom(lba).resumedAt <= plan.resumedAt && plan.ResumedFrom(lba).resumedAt <= lba
    ensures plan.ResumedFrom(lba).resumedAt == if lba < plan.resumedAt then lba else plan.resumedAt
  {}

  lemma KillPrefix(job: Job, trace: seq<State>, n: nat)
    requires KillTrace(job, trace) && 0 < n <= |trace|
    ensures KillTrace(job, trace[..n])
  {
    hide RunStep, SafeKill;
    forall i | 0 <= i < n - 1
      ensures RunStep(job, trace[..n][i], trace[..n][i + 1]) || SafeKill(job, trace[..n][i], trace[..n][i + 1])
    {
      assert RunStep(job, trace[i], trace[i + 1]) || SafeKill(job, trace[i], trace[i + 1]);
    }
  }

  lemma StepIsPure(job: Job, medium: Medium, plan: Plan, target: Plan, s: State, s': State)
    requires Steady(job.responses, medium) && plan.first.minChunk <= 1 && plan.first == target.first
    requires job.Limit() <= target.resumedAt && DefaultMarksFrom(job, medium, target, plan.resumedAt)
    requires Inv(job, plan, s) && Pure(job, medium, target, s) && (RunStep(job, s, s') || SafeKill(job, s, s'))
    ensures Pure(job, medium, target, s')
  {
    hide CopyStep, CheckpointStep, FinishStep, Inv, Pure, Steady, DefaultMarksFrom, MayKill, MayLeave, NothingLost,
      MayHaveRead, OnlyIdeal;
    if CopyStep(job, s, s') {
      CopyIsPure(job, medium, plan, target, s, s');
    } else if CheckpointStep(s, s') || FinishStep(job, s, s') {
      QuietStepIsPure(job, medium, target, s, s');
    } else {
      KillIsPure(job, medium, plan, target, s, s'.image.file);
      RestIsPure(job, medium, target, s');
    }
  }

  lemma RestIsPure(job: Job, medium: Medium, target: Plan, s: State)
    requires s.image == Image(s.image.file, 0, []) && OnlyIdeal(job, medium, target, s.image.file)
    ensures Pure(job, medium, target, s)
  {
    hide OnlyIdeal;
  }

  /** Killed and resumed any number of times, a run has written only what an uninterrupted one writes. */
  lemma {:induction false} KilledRunIsPure(job: Job, medium: Medium, st: Strategy, interval: nat, log: seq<Read>,
                                           trace: seq<State>)
    requires Steady(job.responses, medium) && WellSized(job.responses, job.blockSize)
    requires st.minChunk <= 1 && |log| == job.since
    requires KillTrace(job, trace) && trace[0] == Fresh(job, st, interval, log)
    requires DefaultMarksFrom(job, medium, Uninterrupted(job, st), PlanOf(job, st, trace).resumedAt)
    ensures Inv(job, PlanOf(job, st, trace), trace[|trace| - 1])
    ensures Pure(job, medium, Uninterrupted(job, st), trace[|trace| - 1])
    decreases |trace|
  {
    hide Inv, Pure, RunStep, SafeKill, Steady, WellSized, DefaultMarksFrom, Plan.ResumedFrom;
    var n, target := |trace| - 1, Uninterrupted(job, st);
    if n == 0 {
      FreshInv(job, st, interval, log);
      RestIsPure(job, medium, target, trace[0]) by { NothingIsIdeal(job, medium, target); }
    } else {
      KillPrefix(job, trace, n);
      var plan, s, s' := PlanOf(job, st, trace[..n]), trace[n - 1], trace[n];
      PlanStarts(job, st, trace[..n]);
      PlanLater(plan, s'.cur);
      DefaultMarksLater(job, medium, target, PlanOf(job, st, trace).resumedAt, plan.resumedAt);
      KilledRunIsPure(job, medium, st, interval, log, trace[..n]);
      assert RunStep(job, s, trace[n - 1 + 1]) || SafeKill(job, s, trace[n - 1 + 1]);
      StepIsPure(job, medium, plan, target, s, s');
      if RunStep(job, s, s') {
        RunStepKeepsInv(job, plan, s, s');
      } else {
        KillKeepsInv(job, plan, s, s');
      }
    }
  }

  lemma KillKeepsInv(job: Job, plan: Plan, s: State, s': State)
    requires Inv(job, plan, s) && SafeKill(job, s, s')
    ensures Inv(job, plan.ResumedFrom(s'.cur), s')
  {
    hide Inv, SafeCrash, MayKill;
    SafeCrashKeepsInv(job, plan, s, s');
  }

  lemma NothingIsIdeal(job: Job, medium: Medium, target: Plan)
    ensures OnlyIdeal(job, medium, target, [])
  {}

  /** The checkpoint lies within the file, or the medium holds zeros between the two and more sectors follow. */
  ghost predicate Resumable(job: Job, medium: Medium, target: Plan, file: seq<Sector>, cp: nat) {
    || cp <= job.startLba + |file|
    || (cp != job.Limit() &&
        forall l: nat | job.startLba + |file| <= l < cp ::
          IdealSector(job, medium, target, l) == ZeroSector(job.blockSize))
  }

  lemma PureIntactIff(job: Job, medium: Medium, target: Plan, file: seq<Sector>, cp: nat)
    requires OnlyIdeal(job, medium, target, file) && job.startLba <= cp
    ensures CheckpointedPartIntact(job, medium, target, file, cp) <==> Resumable(job, medium, target, file, cp)
  {
    hide IdealSector, ZeroSector;
    if CheckpointedPartIntact(job, medium, target, file, cp) {
      forall l: nat | job.startLba + |file| <= l < cp
        ensures IdealSector(job, medium, target, l) == ZeroSector(job.blockSize)
      {
        assert SectorOr0(file, l - job.startLba, job.blockSize)
            == IdealSector(job, medium, target, job.startLba + (l - job.startLba));
      }
    }
  }

  /**
   * A run is killed at any moment, its buffer gone, and resumed; it may have been killed and resumed before, if that
   * lost nothing and met no bad sector that the default strategy marks otherwise. The finished image is that of an
   * uninterrupted run if and only if file and checkpoint are resumable and the default marker does for the bad
   * sectors behind the checkpoint. A caller of the resumption can see this before it.
   */
  lemma ResumeAfterKillCorrectIff(job: Job, medium: Medium, st: Strategy, interval: nat, log: seq<Read>,
                                  before: seq<State>, file: seq<Sector>, after: seq<State>)
    requires Steady(job.responses, medium) && WellSized(job.responses, job.blockSize)
    requires st.minChunk <= 1 && |log| == job.since
    requires KillTrace(job, before) && before[0] == Fresh(job, st, interval, log)
    requires DefaultMarksFrom(job, medium, Uninterrupted(job, st), PlanOf(job, st, before).resumedAt)
    requires PlainTrace(job, after) && after[|after| - 1].pc.Finished?
    requires var s := before[|before| - 1]; CrashTo(job, s, file, after[0]) && MayKill(job, s, file)
    ensures var cp, target := before[|before| - 1].stored.currentLba, Uninterrupted(job, st);
      after[|after| - 1].image.file == IdealImage(job, medium, target) <==>
      Resumable(job, medium, target, file, cp) && DefaultMarksFrom(job, medium, target, cp)
  {
    assert |before| != 0 && |after| != 0;
    hide *;
    var plan, target, s := PlanOf(job, st, before), Uninterrupted(job, st), before[|before| - 1];
    KilledRunIsPure(job, medium, st, interval, log, before);
    PlanStarts(job, st, before);
    TargetParts(job, st);
    KillIsPure(job, medium, plan, target, s, file);
    InvBounds(job, plan, s);
    ResumeCorrectIff(job, medium, plan, target, s, file, after);
    PureIntactIff(job, medium, target, file, s.stored.currentLba);
  }

  lemma TargetParts(job: Job, st: Strategy)
    ensures Uninterrupted(job, st).first == st && Uninterrupted(job, st).resumedAt == job.Limit()
  {}

  // ----- when a crash can lose a checkpointed sector

  /** Only a buffered chunk that starts below the stored checkpoint can be lost. */
  lemma LossNeedsBufferedChunk(job: Job, s: State, file: seq<Sector>)
    requires job.startLba <= s.stored.currentLba && !NothingLost(job, s, file)
    ensures s.image.pending != [] && job.startLba + s.image.pendingAt < s.stored.currentLba
  {}

  /** The next chunk's write flushes the buffer and ends the danger. */
  lemma NextCopyEndsDanger(job: Job, plan: Plan, s: State, s': State, file: seq<Sector>)
    requires Inv(job, plan, s) && CopyStep(job, s, s')
    ensures NothingLost(job, s', file)
  {
    hide BadMap.WellFormed, BadMap.IsLbaBad, SectorFinal, ChunkOutcome, ChunkSectors, Image.Flushed;
  }

  /**
   * A stored checkpoint covers the chunk just written, which is still in the buffer unless it filled it. A crash
   * at that moment leaves zeros in its place; the resumed run never rewrites them, and so ends with the right
   * image only if the chunk's sectors were all zero and more sectors follow.
   */
  lemma CheckpointLeavesWindow(job: Job, medium: Medium, plan: Plan, s1: State, s2: State, s3: State)
    requires Steady(job.responses, medium) && plan.first.minChunk <= 1
    requires Inv(job, plan, s1) && CopyStep(job, s1, s2) && CheckpointStep(s2, s3)
    requires s3.stored == Checkpoint(s3.cur, s3.badMap)
    requires s1.cur < s2.cur && (s2.cur - s1.cur) * job.blockSize < 1024 * 1024
    requires job.startLba + |s1.image.Flushed(job.blockSize)| == s1.cur
    ensures MayLeave(job, s3, s3.image.file) && !NothingLost(job, s3, s3.image.file)
    ensures CheckpointedPartIntact(job, medium, plan, s3.image.file, s3.stored.currentLba) <==>
      s3.cur != job.Limit() &&
      forall l: nat | s1.cur <= l < s2.cur :: IdealSector(job, medium, plan, l) == ZeroSector(job.blockSize)
  {
    WindowState(job, s1, s2, s3);
    SteadyPrefix(job, medium, plan, s1);
    hide CopiedFrom, Recoverable, CopyStep, Steady, IdealSector, ZeroSector, Image.Flushed, BadMap.IsLbaBad;
    var file, lost := s3.image.file, s1.cur - job.startLba;
    assert !Reached(s3.image, file, lost);
    if CheckpointedPartIntact(job, medium, plan, file, s3.cur) {
      forall l: nat | s1.cur <= l < s2.cur
        ensures IdealSector(job, medium, plan, l) == ZeroSector(job.blockSize)
      {
        assert SectorOr0(file, l - job.startLba, job.blockSize)
            == IdealSector(job, medium, plan, job.startLba + (l - job.startLba));
      }
    }
  }

  lemma WindowState(job: Job, s1: State, s2: State, s3: State)
    requires WellSized(job.responses, job.blockSize) && CopyStep(job, s1, s2) && CheckpointStep(s2, s3)
    requires s1.cur < s2.cur && (s2.cur - s1.cur) * job.blockSize < 1024 * 1024
    ensures s3.image.file == s1.image.Flushed(job.blockSize)
    ensures s3.image.pendingAt == s1.cur - job.startLba && |s3.image.pending| == s2.cur - s1.cur
    ensures s3.cur == s2.cur
  {
    hide CopyStep, Image.Flushed, WellSized;
    var data := CopyEffect(job, s1, s2);
  }

  // ----- a loss that happens

  function CounterSector(): Sector {
    seq(512, _ => 1)
  }

  ghost const COUNTER_JOB := Job(0, 128, 512, (k: nat, l: nat, count: nat) => Some(seq(count, _ => CounterSector())), 0)

  function CounterMedium(): Medium {
    Medium((l: nat) => CounterSector(), (l: nat) => false)
  }

  function CounterCrashed(): State {
    State(Looping, 128, 128, RESUME_INTERVAL, DEFAULT_STRATEGY, EMPTY, Image([], 0, []), Checkpoint(128, EMPTY),
          [Read(0, 128)])
  }

  /** 129 readable sectors and a checkpoint after the first 128, which are still in the buffer. */
  lemma RunToCheckpoint() returns (before: seq<State>)
    ensures |before| != 0 && PlainTrace(COUNTER_JOB, before) && before[0] == Fresh(COUNTER_JOB, DEFAULT_STRATEGY, 1, [])
    ensures before[|before| - 1] == CounterCrashed().(lastCheckpoint := 128, interval := 1,
                                                      image := Image([], 0, seq(128, _ => CounterSector())))
  {
    hide ReadChunk, PlainTrace, Image.WriteBlocks;
    var chunk := seq(128, _ => CounterSector());
    CounterRead(0, 128, []);
    CounterHead(chunk);
    before := ChunkThenCheckpoint(COUNTER_JOB, Fresh(COUNTER_JOB, DEFAULT_STRATEGY, 1, []), 128);
  }

  /** A copied chunk whose checkpoint is due and is stored. */
  lemma ChunkThenCheckpoint(job: Job, s: State, chunk: nat) returns (trace: seq<State>)
    requires CanCopy(job, s) && chunk == ChunkSectors(s.strategy, s.cur, job.endLba)
    requires s.lastCheckpoint <= s.cur && s.cur + chunk - s.lastCheckpoint >= s.interval
    ensures |trace| != 0 && PlainTrace(job, trace) && trace[0] == s
    ensures var c := NextChunk(job, s);
      trace[|trace| - 1] == s.(cur := s.cur + chunk, lastCheckpoint := s.cur + chunk, badMap := c.badMap, log := c.log,
                               stored := Checkpoint(s.cur + chunk, c.badMap),
                               image := s.image.WriteBlocks(s.cur - job.startLba, c.data, job.blockSize))
  {
    hide ReadChunk, ChunkSectors, Image.WriteBlocks;
    var c := NextChunk(job, s);
    var s1 := s.(pc := Copied, cur := s.cur + chunk, badMap := c.badMap, log := c.log,
                 image := s.image.WriteBlocks(s.cur - job.startLba, c.data, job.blockSize));
    var s2 := s1.(pc := Looping, lastCheckpoint := s1.cur, stored := Checkpoint(s1.cur, s1.badMap));
    assert CopyStep(job, s, s1) && CheckpointStep(s1, s2);
    trace := [s, s1, s2];
  }

  /** The first chunk stays in the buffer. */
  lemma CounterHead(chunk: seq<Sector>)
    requires |chunk| == 128
    ensures Image([], 0, []).WriteBlocks(0, chunk, 512) == Image([], 0, chunk)
  {}

  /** Resuming on the empty file from block 128. */
  lemma RunFromCheckpoint() returns (after: seq<State>)
    ensures |after| != 0 && PlainTrace(COUNTER_JOB, after) && after[0] == CounterCrashed()
    ensures after[|after| - 1].pc.Finished?
    ensures after[|after| - 1].image.file == WriteAt([], 128, [CounterSector()], 512)
  {
    hide ReadChunk, Image.WriteBlocks, Image.Flushed, WriteAt;
    var tail, log := [CounterSector()], [Read(0, 128)];
    CounterRead(128, 1, log);
    assert tail == seq(1, _ => CounterSector());
    var r1 := CounterCrashed().(pc := Copied, cur := 129, image := Image([], 128, tail), log := log + [Read(128, 1)]);
    assert r1.image == CounterCrashed().image.WriteBlocks(128, tail, 512) by { CounterTail(tail); }
    var r2 := r1.(pc := Looping);
    var r3 := r2.(pc := Finished, image := Image(r2.image.Flushed(512), 0, []));
    assert CopyStep(COUNTER_JOB, CounterCrashed(), r1) && CheckpointStep(r1, r2) && FinishStep(COUNTER_JOB, r2, r3);
    assert r3.image.file == WriteAt([], 128, tail, 512) by { CounterTail(tail); }
    after := [CounterCrashed(), r1, r2, r3];
  }

  /** One sector stays in the buffer until the end. */
  lemma CounterTail(tail: seq<Sector>)
    requires |tail| == 1
    ensures Image([], 0, []).WriteBlocks(128, tail, 512) == Image([], 128, tail)
    ensures Image([], 128, tail).Flushed(512) == WriteAt([], 128, tail, 512)
  {}

  /** A crash right after the checkpoint: the resumed run finishes with zeros in place of the first sectors. */
  lemma CrashAfterCheckpointLosesAChunk() returns (before: seq<State>, after: seq<State>)
    ensures Steady(COUNTER_JOB.responses, CounterMedium())
    ensures PlainTrace(COUNTER_JOB, before) && before[0] == Fresh(COUNTER_JOB, DEFAULT_STRATEGY, 1, [])
    ensures PlainTrace(COUNTER_JOB, after) && CrashTo(COUNTER_JOB, before[|before| - 1], [], after[0])
    ensures after[|after| - 1].pc.Finished?
    ensures after[|after| - 1].image.file
         != IdealImage(COUNTER_JOB, CounterMedium(), Uninterrupted(COUNTER_JOB, DEFAULT_STRATEGY))
  {
    before := RunToCheckpoint();
    CounterCrash(before[|before| - 1]);
    after := RunFromCheckpoint();
    CounterSteady();
    CounterImages(after[|after| - 1].image.file);
  }

  lemma CounterSteady()
    ensures Steady(COUNTER_JOB.responses, CounterMedium())
  {
    forall k: nat, start: nat, count: nat, i: nat
      | COUNTER_JOB.responses(k, start, count).Some? && i < |COUNTER_JOB.responses(k, start, count).value|
      ensures COUNTER_JOB.responses(k, start, count).value[i] == CounterMedium().content(start + i)
    {}
  }

  lemma CounterImages(file: seq<Sector>)
    requires file == WriteAt([], 128, [CounterSector()], 512)
    ensures file != IdealImage(COUNTER_JOB, CounterMedium(), Uninterrupted(COUNTER_JOB, DEFAULT_STRATEGY))
  {
    var ideal := IdealImage(COUNTER_JOB, CounterMedium(), Uninterrupted(COUNTER_JOB, DEFAULT_STRATEGY));
    assert |file| == 129 && |ideal| == 129;
    assert ideal[0] == IdealSector(COUNTER_JOB, CounterMedium(), Uninterrupted(COUNTER_JOB, DEFAULT_STRATEGY), 0);
    assert !CounterMedium().bad(0) && CounterMedium().content(0) == CounterSector();
    assert file[0] == ZeroSector(512);
    assert CounterSector()[0] == 1 && ZeroSector(512)[0] == 0;
  }

  /** The first read succeeds. */
  lemma CounterRead(start: nat, count: nat, log: seq<Read>)
    ensures ReadChunk(COUNTER_JOB.responses, DEFAULT_STRATEGY, 512, start, count, EMPTY, log)
         == Chunk(seq(count, _ => CounterSector()), EMPTY, log + [Read(start, count)])
  {
    hide ReadSectors, MarkedChunk;
    assert COUNTER_JOB.responses(|log|, start, count) == Some(seq(count, _ => CounterSector()));
  }

  /** The process dies with the buffer unwritten, before the next chunk is read. */
  lemma CounterCrash(s: State)
    requires s == CounterCrashed().(lastCheckpoint := 128, interval := 1,
                                    image := Image([], 0, seq(128, _ => CounterSector())))
    ensures CrashTo(COUNTER_JOB, s, [], CounterCrashed())
  {
    CounterRead(128, 1, s.log);
    hide ReadChunk;
  }
}
