/** Whole runs on bytes: a crash may leave any prefix of any write, and Open parses what is there. */
module ByteRuns {
  import opened Bytes
  import opened Kv
  import opened MemTables
  import opened Manifests
  import opened Engine
  import opened Compaction
  import opened Recovery
  import opened Runs
  import opened ByteDisk
  import SSTable

  datatype RawCut = RawFinished | RawDiesAt(i: nat, q: RawProgress)

  datatype RawStep = RawStep(event: Event, cut: RawCut)

  // ---- Only a write appends to the log ----

  ghost predicate NoAppends(es: seq<Effect>) {
    forall i :: 0 <= i < |es| ==> !es[i].AppendLog?
  }

  lemma {:induction false} NoAppendsClean(d: Disk, es: seq<Effect>)
    requires NoAppends(es)
    ensures AppendsClean(d, es)
    decreases |es|
  {
    hide Apply;
    if es != [] {
      assert !es[0].AppendLog?;
      assert forall i :: 0 <= i < |es[1..]| ==> es[1..][i] == es[i + 1];
      NoAppendsClean(Apply(d, es[0]), es[1..]);
    }
  }

  lemma FlushNoAppends(st: State, cfg: Config)
    requires |st.levels| == MAX_LEVELS
    ensures NoAppends(Flush(st, cfg).1)
  {
    hide Entries, NewFile, ManifestOf;
  }

  lemma CompactNoAppends(st: State, level: nat, cfg: Config)
    requires |st.levels| == MAX_LEVELS
    ensures NoAppends(Compact(st, level, cfg).1)
  {
    hide Split, MergedEntries, NewFile, ManifestOf;
  }

  lemma {:induction false} CompactAllNoAppends(st: State, cfg: Config)
    requires |st.levels| == MAX_LEVELS && cfg.l0Trigger >= 1
    ensures NoAppends(CompactAll(st, cfg).1)
    decreases Rank(st, cfg)
  {
    hide Compact, NeedsCompaction;
    if NeedsCompaction(st, cfg).Some? {
      var level := NeedsCompaction(st, cfg).value;
      NextPickDeeper(st, level, cfg);
      CompactNoAppends(st, level, cfg);
      CompactAllNoAppends(Compact(st, level, cfg).0, cfg);
    }
  }

  lemma {:induction false} SweepNoAppends(order: seq<nat>, live: set<nat>)
    ensures NoAppends(Sweep(order, live))
  {
    if order != [] { SweepNoAppends(order[1..], live); }
  }

  /** In every event, at most the first operation appends, and only if the log has no unreadable tail. */
  lemma EventAppendsClean(s: Sys, e: Event)
    requires Enabled(s, e) && OutcomeOf(s, e).Some?
    ensures AppendsClean(s.disk, OutcomeOf(s, e).value.1)
  {
    hide Flush, CompactAll, Recover, AppendsClean, Apply, Sweep, LiveMetas, MemApply;
    var es := OutcomeOf(s, e).value.1;
    if s.Down? {
      SweepNoAppends(e.order, LiveMetas(ManifestOn(s.disk)));
      NoAppendsClean(s.disk, es);
    } else {
      var st, cfg := s.st, s.cfg;
      FlushNoAppends(st, cfg);
      if Accepts(s, e) {
        var st1 := Logged(st, e.batch);
        FlushNoAppends(st1, cfg);
        CompactAllNoAppends(st1, cfg);
        CompactAllNoAppends(Flush(st1, cfg).0, cfg);
        assert NoAppends(es[1..]);
        NoAppendsClean(Apply(s.disk, es[0]), es[1..]);
        AppendsFirst(s.disk, es);
      } else {
        CompactAllNoAppends(Flush(st, cfg).0, cfg);
        NoAppendsClean(s.disk, es);
      }
    }
  }

  lemma AppendsFirst(d: Disk, es: seq<Effect>)
    requires es != [] && d.log.Some? && !d.log.value.torn && AppendsClean(Apply(d, es[0]), es[1..])
    ensures AppendsClean(d, es)
  {
    hide Apply;
  }

  // ---- Runs ----

  /** The abstract cut that a cut at a byte amounts to. */
  function AbsCut(s: Sys, e: Event, cut: RawCut): Cut {
    match cut
    case RawFinished => Finished
    case RawDiesAt(i, q) =>
      match OutcomeOf(s, e)
      case Some((_, es)) => if i < |es| then DiesAt(i, AbsProgress(es[i], q)) else Finished
      case None => Finished
  }

  function RawAfter(r: RawDisk, s: Sys, e: Event, cut: RawCut): RawDisk {
    match OutcomeOf(s, e)
    case None => r
    case Some((_, es)) =>
      match cut
      case RawFinished => RawApplyAll(r, es)
      case RawDiesAt(i, q) => if i < |es| then RawCrashAt(r, es, i, q) else RawApplyAll(r, es)
  }

  /** The event is enabled, the cut lies inside it, and what it writes is inside the machine widths. */
  ghost predicate RawEnabled(s: Sys, step: RawStep) {
    var outcome := OutcomeOf(s, step.event);
    Enabled(s, step.event) &&
    (step.cut.RawDiesAt? ==> !step.event.Kill? && outcome.Some? && step.cut.i < |outcome.value.1|) &&
    (outcome.Some? ==> EffectsFit(outcome.value.1))
  }

  ghost predicate RawLegal(s: Sys, steps: seq<RawStep>)
    decreases |steps|
  {
    steps == [] ||
    (RawEnabled(s, steps[0]) &&
     RawLegal(After(s, steps[0].event, AbsCut(s, steps[0].event, steps[0].cut)), steps[1..]))
  }

  /** The steps of the abstract run that a run on bytes amounts to. */
  function AbsSteps(s: Sys, steps: seq<RawStep>): seq<Step>
    decreases |steps|
  {
    if steps == [] then []
    else
      var e, cut := steps[0].event, AbsCut(s, steps[0].event, steps[0].cut);
      [Step(e, cut)] + AbsSteps(After(s, e, cut), steps[1..])
  }

  /** The bytes a run leaves. */
  function RawRun(s: Sys, r: RawDisk, steps: seq<RawStep>): RawDisk
    decreases |steps|
  {
    if steps == [] then r
    else
      var e, cut := steps[0].event, steps[0].cut;
      RawRun(After(s, e, AbsCut(s, e, cut)), RawAfter(r, s, e, cut), steps[1..])
  }

  lemma RawStepKeeps(s: Sys, r: RawDisk, step: RawStep)
    requires Rep(r, s.disk) && RawEnabled(s, step)
    ensures var cut := AbsCut(s, step.event, step.cut);
            CutOk(s, step.event, cut) &&
            Rep(RawAfter(r, s, step.event, step.cut), After(s, step.event, cut).disk)
  {
    hide OutcomeOf, Rep, EffectsFit, AbsProgress, RawApplyAll, ApplyAll, CrashAt, RawCrashAt, Enabled;
    KillHasNoOutcome(s, step.event);
    if OutcomeOf(s, step.event).Some? {
      var es := OutcomeOf(s, step.event).value.1;
      EventAppendsClean(s, step.event);
      if step.cut.RawDiesAt? {
        RepCrash(r, s.disk, es, step.cut.i, step.cut.q);
      } else {
        RepRun(r, s.disk, es);
      }
    }
  }

  lemma KillHasNoOutcome(s: Sys, e: Event)
    ensures e.Kill? ==> OutcomeOf(s, e) == None
  {
    hide Write, FlushAndCompact, CloseEnd, Recover;
  }

  /** A legal run on bytes is a legal run of the abstract store, and its bytes represent the latter's directory. */
  lemma {:induction false} RawRunKeeps(s: Sys, r: RawDisk, hist: seq<Batch>, steps: seq<RawStep>)
    requires SysOk(s, hist) && Rep(r, s.disk) && RawLegal(s, steps)
    ensures var abs := AbsSteps(s, steps);
            var (s', hist') := Run(s, hist, abs);
            Legal(s, abs) && SysOk(s', hist') && Rep(RawRun(s, r, steps), s'.disk)
    decreases |steps|
  {
    hide SysOk, Rep, After, RawAfter, History, AbsCut, OutcomeOf, Enabled, EffectsFit, CutOk;
    if steps != [] {
      var e, cut := steps[0].event, AbsCut(s, steps[0].event, steps[0].cut);
      var s1 := After(s, e, cut);
      RawStepKeeps(s, r, steps[0]);
      EveryStepKeeps(s, Step(e, cut), hist);
      RawRunKeeps(s1, RawAfter(r, s, e, steps[0].cut), History(hist, s, e, cut), steps[1..]);
      assert AbsSteps(s, steps)[1..] == AbsSteps(s1, steps[1..]);
    }
  }

  /**
   * Every directory a run can leave is one that Open was proved for: it represents a recoverable abstract one, whose
   * state is well formed and shows the user the history.
   */
  lemma DirectoryReached(steps: seq<RawStep>) returns (d: Disk, st: State)
    requires RawLegal(Down(NO_DISK), steps)
    ensures var abs := AbsSteps(Down(NO_DISK), steps);
            var (s, hist) := Run(Down(NO_DISK), [], abs);
            d == s.disk && Rep(RawRun(Down(NO_DISK), NO_RAW_DISK, steps), d) && Holds(d, st) && Inv(st) &&
            Abs(st) == UserMap(hist) && Written(hist, Down(NO_DISK), abs)
  {
    hide Rep, RawRun, RawLegal, AbsSteps, Run, Legal, Written, SysOk, Inv, Abs, Holds, PlainApplyAll;
    FreshSys();
    FreshBytes();
    RawRunKeeps(Down(NO_DISK), NO_RAW_DISK, [], steps);
    var abs := AbsSteps(Down(NO_DISK), steps);
    FreshRun(abs);
    var (s, hist) := Run(Down(NO_DISK), [], abs);
    d := s.disk;
    st := RecoveredState(s, hist);
  }

  lemma RecoveredState(s: Sys, hist: seq<Batch>) returns (st: State)
    requires SysOk(s, hist)
    ensures Holds(s.disk, st) && Inv(st) && Abs(st) == UserMap(hist)
  {
    hide Inv, Abs, Holds, PlainApplyAll, LevelsMap, Visible;
    if s.Up? {
      st := s.st;
      SyncedHolds(st, s.disk);
    } else {
      st :| Holds(s.disk, st) && Inv(st) && Abs(st) == UserMap(hist);
    }
  }

  lemma FreshBytes()
    ensures Rep(NO_RAW_DISK, NO_DISK)
  {
  }

  /**
   * Crash-safe refinement on bytes. After any legal run from an absent directory, with crashes that leave any
   * prefix of a table or of a log record, and options that may differ at every open, parsing the bytes gives a
   * well-formed store, with a reader for every table, that shows the user exactly the batches of the history; and
   * these are the acknowledged ones, with besides them at most one whole batch for each death.
   */
  lemma BytesRecover(steps: seq<RawStep>)
    requires RawLegal(Down(NO_DISK), steps)
    ensures var abs := AbsSteps(Down(NO_DISK), steps);
            var hist := Run(Down(NO_DISK), [], abs).1;
            Written(hist, Down(NO_DISK), abs) &&
            exists st :: RawOpen(RawRun(Down(NO_DISK), NO_RAW_DISK, steps)) == Some(RawOfState(st)) &&
                         Inv(st) && Abs(st) == UserMap(hist)
  {
    hide Rep, RawRun, RawLegal, AbsSteps, Run, Written, RawOpen, RawOfState, Inv, Abs, Holds, Recover, PlainApplyAll;
    var d, st := DirectoryReached(steps);
    HoldsIffRecovers(d, st);
    RawOpenAgrees(RawRun(Down(NO_DISK), NO_RAW_DISK, steps), d);
  }

  /** In every directory a run can leave, the manifest's bytes name files that are there with the recorded length. */
  lemma SizesRecorded(steps: seq<RawStep>, l: nat, i: nat)
    requires RawLegal(Down(NO_DISK), steps)
    ensures var r := RawRun(Down(NO_DISK), NO_RAW_DISK, steps);
            RawManifest(r).Some? &&
            var levels := RawManifest(r).value.levels;
            l < |levels| && i < |levels[l]| ==>
              levels[l][i].number in r.files && |r.files[levels[l][i].number]| == levels[l][i].fileSize
  {
    hide RawRun, RawLegal, AbsSteps, Run, Written, Inv, Abs, PlainApplyAll, RepFile, RepLog, Manifests.Encode,
      Manifests.Decode, ManifestFits, SSTable.Open, SSTable.ReadAll, FilesOnDisk, MemReplay;
    var d, st := DirectoryReached(steps);
    var r := RawRun(Down(NO_DISK), NO_RAW_DISK, steps);
    if d.manifest.Some? { ManifestRoundTrip(d.manifest.value); }
    assert RawManifest(r) == Some(ManifestOf(st));
    if l < |st.levels| && i < |st.levels[l]| { RecordedMeta(r, d, st, l, i); }
  }
}
