/** Images of a steady source, and what runs over it agree on. */
module SteadyRuns {
  import opened Acquisition
  import opened AcquisitionLoop
  import opened BadSectors
  import opened CrashResume
  import opened RawImages
  import opened Wrappers

  // ----- a steady source

  /** Fixed sector contents and fixed bad sectors. */
  datatype Medium = Medium(content: nat -> Sector, bad: nat -> bool)
  {
    /** What a run with this strategy leaves for the sector. */
    function CopyOf(blockSize: nat, st: Strategy, l: nat): Sector {
      if bad(l) then Markers(st.pattern, 1, blockSize)[0] else content(l)
    }
  }

  /** Every answer is that of the medium; reads of several sectors may fail for other reasons too. */
  ghost predicate Steady(resp: Responses, medium: Medium) {
    && (forall k: nat, start: nat, count: nat, i: nat | resp(k, start, count).Some?
      && i < |resp(k, start, count).value| ::
          !medium.bad(start + i) && resp(k, start, count).value[i] == medium.content(start + i))
    && (forall k: nat, l: nat | resp(k, l, 1).None? :: medium.bad(l))
  }

  lemma SteadyOutcome(h: History, medium: Medium, st: Strategy, blockSize: nat, l: nat, bytes: Sector, flag: bool)
    requires Steady(h.responses, medium) && st.minChunk <= 1
    requires Outcome(h, st, blockSize, l, bytes, flag)
    ensures flag == medium.bad(l) && bytes == medium.CopyOf(blockSize, st, l)
  {
    hide Markers;
    if flag {
      var k: nat, start: nat, count: nat :| GaveUp(h, st, blockSize, k, start, count, l, bytes);
      assert count == 1 && start == l && h.responses(k, l, 1).None?;
    } else {
      var k: nat :| Gave(h, k, l, bytes);
      var start := h.log[k].lba;
      assert h.responses(k, start, h.log[k].count).value[l - start] == medium.content(start + (l - start));
    }
  }

  function IdealSector(job: Job, medium: Medium, plan: Plan, l: nat): Sector {
    medium.CopyOf(job.blockSize, plan.At(l), l)
  }

  lemma SteadyFinal(job: Job, log: seq<Read>, medium: Medium, plan: Plan, l: nat, bytes: Sector, flag: bool)
    requires Steady(job.responses, medium) && plan.first.minChunk <= 1
    requires SectorFinal(job, log, plan, l, bytes, flag)
    ensures flag == medium.bad(l) && bytes == IdealSector(job, medium, plan, l)
  {
    hide Outcome, Steady, Medium.CopyOf;
    SteadyOutcome(job.Made(log), medium, plan.At(l), job.blockSize, l, bytes, flag);
  }

  function IdealImage(job: Job, medium: Medium, plan: Plan): seq<Sector> {
    seq(job.Limit() - job.startLba, (i: nat) => IdealSector(job, medium, plan, job.startLba + i))
  }

  /** On a steady source the image and the bad sectors are those of the source, marked as planned. */
  lemma SteadyImage(job: Job, log: seq<Read>, medium: Medium, plan: Plan, file: seq<Sector>, m: BadMap)
    requires Steady(job.responses, medium) && plan.first.minChunk <= 1
    requires FaithfulImage(job, log, plan, file, m)
    ensures file == IdealImage(job, medium, plan)
    ensures forall l: nat :: m.IsLbaBad(l) <==> job.startLba <= l < job.Limit() && medium.bad(l)
  {
    hide BadMap.WellFormed, BadMap.IsLbaBad, SectorFinal, IdealSector, Steady;
    forall l: nat | job.startLba <= l < job.Limit()
      ensures m.IsLbaBad(l) <==> medium.bad(l)
      ensures file[l - job.startLba] == IdealSector(job, medium, plan, l)
    {
      SteadyFinal(job, log, medium, plan, l, file[l - job.startLba], m.IsLbaBad(l));
    }
    forall i | 0 <= i < |file|
      ensures file[i] == IdealImage(job, medium, plan)[i]
    {
      assert file[(job.startLba + i) - job.startLba] == IdealSector(job, medium, plan, job.startLba + i);
    }
  }

  // ----- what runs agree on

  predicate SameMarker(blockSize: nat, a: Strategy, b: Strategy) {
    Markers(a.pattern, 1, blockSize)[0] == Markers(b.pattern, 1, blockSize)[0]
  }

  /** Both plans mark the bad sectors of the range alike. */
  ghost predicate MarkedAlike(job: Job, medium: Medium, p: Plan, q: Plan) {
    forall l: nat | job.startLba <= l < job.Limit() && medium.bad(l) :: SameMarker(job.blockSize, p.At(l), q.At(l))
  }

  lemma IdealsAgreeIff(job: Job, medium: Medium, p: Plan, q: Plan)
    ensures IdealImage(job, medium, p) == IdealImage(job, medium, q) <==> MarkedAlike(job, medium, p, q)
  {
    hide Markers, Plan.At;
    var a, b := IdealImage(job, medium, p), IdealImage(job, medium, q);
    forall l: nat | job.startLba <= l < job.Limit()
      ensures a[l - job.startLba] == IdealSector(job, medium, p, l)
      ensures b[l - job.startLba] == IdealSector(job, medium, q, l)
    {}
    if a == b {
      forall l: nat | job.startLba <= l < job.Limit() && medium.bad(l)
        ensures SameMarker(job.blockSize, p.At(l), q.At(l))
      {
        assert a[l - job.startLba] == b[l - job.startLba];
      }
    }
    if MarkedAlike(job, medium, p, q) {
      forall i | 0 <= i < |a|
        ensures a[i] == b[i]
      {
        assert a[(job.startLba + i) - job.startLba] == IdealSector(job, medium, p, job.startLba + i);
      }
    }
  }

  /**
   * Two runs over a steady source, however they were cut into chunks, checkpointed, interrupted and resumed, end
   * with the same bad ranges and totals, as long as no crash loses a checkpointed sector and no chunk is marked as a
   * whole; and with the same image if and only if they mark the bad sectors alike.
   */
  lemma RunsAgree(job: Job, medium: Medium, st1: Strategy, interval1: nat, log1: seq<Read>, trace1: seq<State>,
                  st2: Strategy, interval2: nat, log2: seq<Read>, trace2: seq<State>)
    requires Steady(job.responses, medium) && WellSized(job.responses, job.blockSize)
    requires st1.minChunk <= 1 && st2.minChunk <= 1 && |log1| == |log2| == job.since
    requires SafeTrace(job, trace1) && trace1[0] == Fresh(job, st1, interval1, log1)
      && trace1[|trace1| - 1].pc.Finished?
    requires SafeTrace(job, trace2) && trace2[0] == Fresh(job, st2, interval2, log2)
      && trace2[|trace2| - 1].pc.Finished?
    ensures trace1[|trace1| - 1].badMap == trace2[|trace2| - 1].badMap
    ensures trace1[|trace1| - 1].image.file == trace2[|trace2| - 1].image.file <==>
      MarkedAlike(job, medium, PlanOf(job, st1, trace1), PlanOf(job, st2, trace2))
  {
    hide PlanOf, FaithfulImage, IdealImage, MarkedAlike, Steady, WellSized, RunStep, SafeCrash;
    var p1, p2 := PlanOf(job, st1, trace1), PlanOf(job, st2, trace2);
    var f1, f2 := trace1[|trace1| - 1], trace2[|trace2| - 1];
    EveryRunIsFaithful(job, st1, interval1, log1, trace1);
    EveryRunIsFaithful(job, st2, interval2, log2, trace2);
    PlanStarts(job, st1, trace1);
    PlanStarts(job, st2, trace2);
    SteadyImage(job, f1.log, medium, p1, f1.image.file, f1.badMap);
    SteadyImage(job, f2.log, medium, p2, f2.image.file, f2.badMap);
    IdealsAgreeIff(job, medium, p1, p2);
    SameMap(job, f1.log, p1, f1.image.file, f1.badMap, f2.log, p2, f2.image.file, f2.badMap);
  }

  lemma SameMap(job: Job, log1: seq<Read>, p1: Plan, file1: seq<Sector>, m1: BadMap,
                log2: seq<Read>, p2: Plan, file2: seq<Sector>, m2: BadMap)
    requires FaithfulImage(job, log1, p1, file1, m1) && FaithfulImage(job, log2, p2, file2, m2)
    requires forall l: nat :: m1.IsLbaBad(l) <==> m2.IsLbaBad(l)
    ensures m1 == m2
  {
    MapCanonical(m1, m2, job.blockSize);
  }

  lemma {:induction false} PlanStarts(job: Job, st: Strategy, trace: seq<State>)
    requires |trace| != 0
    ensures PlanOf(job, st, trace).first == st && PlanOf(job, st, trace).resumedAt <= job.Limit()
    decreases |trace|
  {
    hide RunStep;
    if |trace| > 1 {
      PlanStarts(job, st, trace[..|trace| - 1]);
    }
  }

  /** The marker of the default strategy would do for every bad sector from `from` on. */
  ghost predicate DefaultMarksFrom(job: Job, medium: Medium, plan: Plan, from: nat) {
    forall l: nat | job.startLba <= l < job.Limit() && from <= l && medium.bad(l) ::
      SameMarker(job.blockSize, plan.At(l), DEFAULT_STRATEGY)
  }

  /**
   * Resumption forgets the configured strategy. A resumed run ends with the image of an uninterrupted one if and
   * only if the markers of both strategies coincide, or no sector is bad from where the first resumption began.
   */
  lemma ResumptionAgreesIff(job: Job, medium: Medium, st: Strategy, interval1: nat, log1: seq<Read>,
                            trace1: seq<State>, interval2: nat, log2: seq<Read>, trace2: seq<State>)
    requires Steady(job.responses, medium) && WellSized(job.responses, job.blockSize)
    requires st.minChunk <= 1 && |log1| == |log2| == job.since
    requires PlainTrace(job, trace1) && trace1[0] == Fresh(job, st, interval1, log1)
      && trace1[|trace1| - 1].pc.Finished?
    requires SafeTrace(job, trace2) && trace2[0] == Fresh(job, st, interval2, log2)
      && trace2[|trace2| - 1].pc.Finished?
    ensures trace1[|trace1| - 1].image.file == trace2[|trace2| - 1].image.file <==>
      || SameMarker(job.blockSize, st, DEFAULT_STRATEGY)
      || forall l: nat | job.startLba <= l < job.Limit() && PlanOf(job, st, trace2).resumedAt <= l :: !medium.bad(l)
  {
    PlainIsSafe(job, trace1);
    PlainPlan(job, st, trace1);
    PlanStarts(job, st, trace2);
    hide PlanOf, Steady, WellSized, PlainTrace, SafeTrace, SameMarker;
    RunsAgree(job, medium, st, interval1, log1, trace1, st, interval2, log2, trace2);
    var plan := PlanOf(job, st, trace2);
    forall l: nat | job.startLba <= l < job.Limit()
      ensures Uninterrupted(job, st).At(l) == st
      ensures plan.At(l) == if l < plan.resumedAt then st else DEFAULT_STRATEGY
    {}
    SameMarkerAsItself(job.blockSize, st);
  }

  lemma SameMarkerAsItself(blockSize: nat, st: Strategy)
    ensures SameMarker(blockSize, st, st)
  {}

  lemma PlainIsSafe(job: Job, trace: seq<State>)
    requires PlainTrace(job, trace)
    ensures SafeTrace(job, trace)
  {}

  /** A run of one chunk that covers what is left, up to the end. */
  lemma LastChunk(job: Job, s: State) returns (trace: seq<State>)
    requires CanCopy(job, s) && s.cur + ChunkSectors(s.strategy, s.cur, job.endLba) == job.endLba + 1
    ensures |trace| != 0 && PlainTrace(job, trace) && trace[0] == s && trace[|trace| - 1].pc.Finished?
    ensures trace[|trace| - 1].image.file
         == s.image.WriteBlocks(s.cur - job.startLba, NextChunk(job, s).data, job.blockSize).Flushed(job.blockSize)
  {
    hide ReadChunk, ChunkSectors, Image.WriteBlocks, Image.Flushed;
    var c := NextChunk(job, s);
    var s1 := s.(pc := Copied, cur := job.endLba + 1, badMap := c.badMap, log := c.log,
                 image := s.image.WriteBlocks(s.cur - job.startLba, c.data, job.blockSize));
    var s2 := s1.(pc := Looping);
    if s1.cur - s1.lastCheckpoint >= s1.interval {
      s2 := s2.(lastCheckpoint := s1.cur);
    }
    var s3 := s2.(pc := Finished, image := Image(s2.image.Flushed(job.blockSize), 0, []));
    assert CopyStep(job, s, s1) && CheckpointStep(s1, s2) && FinishStep(job, s2, s3);
    trace := [s, s1, s2, s3];
  }

  // ----- a resumption that marks otherwise

  const OTHER_STRATEGY := Strategy(3, 128, 1, [0xAA])

  ghost const FAILING_JOB := Job(0, 0, 512, (k: nat, l: nat, count: nat) => None, 0)

  function FailingMedium(): Medium {
    Medium((l: nat) => [], (l: nat) => true)
  }

  function ResumedAtOnce(): State {
    State(Looping, 0, 0, RESUME_INTERVAL, DEFAULT_STRATEGY, EMPTY, Image([], 0, []), Checkpoint(0, EMPTY), [])
  }

  lemma MarkersDiffer()
    ensures !SameMarker(512, OTHER_STRATEGY, DEFAULT_STRATEGY)
  {
    PlaceholderPeriodic([0xAA], 512);
    PlaceholderPeriodic(MARKER, 512);
    assert Markers([0xAA], 1, 512)[0][0] == 0xAA && Markers(MARKER, 1, 512)[0][0] == 0x56;
  }

  /** A plan only moves its resumption forward, as a trace goes on. */
  lemma {:induction false} PlanShrinks(job: Job, st: Strategy, trace: seq<State>, n: nat)
    requires 0 < n <= |trace|
    ensures PlanOf(job, st, trace).resumedAt <= PlanOf(job, st, trace[..n]).resumedAt
    decreases |trace|
  {
    hide RunStep;
    var m := |trace| - 1;
    if n > m {
      assert trace[..n] == trace;
    } else {
      PlanShrinks(job, st, trace[..m], n);
      assert trace[..m][..n] == trace[..n];
    }
  }

  /** Interrupted before its first read, a run over one unreadable sector ends with another marker. */
  lemma ResumptionChangesMarkers() returns (whole: seq<State>, resumed: seq<State>)
    ensures Steady(FAILING_JOB.responses, FailingMedium())
    ensures PlainTrace(FAILING_JOB, whole) && whole[0] == Fresh(FAILING_JOB, OTHER_STRATEGY, 1, [])
    ensures SafeTrace(FAILING_JOB, resumed) && resumed[0] == Fresh(FAILING_JOB, OTHER_STRATEGY, 1, [])
    ensures whole[|whole| - 1].pc.Finished? && resumed[|resumed| - 1].pc.Finished?
    ensures whole[|whole| - 1].image.file != resumed[|resumed| - 1].image.file
  {
    var first := Fresh(FAILING_JOB, OTHER_STRATEGY, 1, []);
    whole := LastChunk(FAILING_JOB, first);
    var rest := LastChunk(FAILING_JOB, ResumedAtOnce());
    resumed := [first] + rest;
    CrashAtOnce(rest);
    PlanShrinks(FAILING_JOB, OTHER_STRATEGY, resumed, 2);
    MarkersDiffer();
    hide RunStep, SafeCrash, SameMarker, PlanOf;
    ResumptionAgreesIff(FAILING_JOB, FailingMedium(), OTHER_STRATEGY, 1, [], whole, 1, [], resumed);
    assert FailingMedium().bad(0);
  }

  lemma CrashAtOnce(rest: seq<State>)
    requires PlainTrace(FAILING_JOB, rest) && rest[0] == ResumedAtOnce()
    ensures var resumed := [Fresh(FAILING_JOB, OTHER_STRATEGY, 1, [])] + rest;
      SafeTrace(FAILING_JOB, resumed) && PlanOf(FAILING_JOB, OTHER_STRATEGY, resumed[..2]).resumedAt == 0
  {
    hide ReadChunk;
    var first := Fresh(FAILING_JOB, OTHER_STRATEGY, 1, []);
    var resumed := [first] + rest;
    assert SafeCrash(FAILING_JOB, first, ResumedAtOnce()) && !RunStep(FAILING_JOB, first, ResumedAtOnce());
    hide RunStep, SafeCrash;
    forall i | 0 <= i < |resumed| - 1
      ensures RunStep(FAILING_JOB, resumed[i], resumed[i + 1]) || SafeCrash(FAILING_JOB, resumed[i], resumed[i + 1])
    {
      if i > 0 {
        assert RunStep(FAILING_JOB, rest[i - 1], rest[i - 1 + 1]);
      }
    }
    assert resumed[..2][..1] == [first];
  }
}
