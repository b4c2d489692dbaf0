/** One run in which a write that was acknowledged is not found again: it was appended behind an unread tail. */
module LostWrite {
  import opened Bytes
  import opened Kv
  import opened MemTables
  import opened WriteBatches
  import opened Manifests
  import opened Engine
  import opened Recovery
  import opened Runs
  import opened ByteDisk
  import opened ByteRuns
  import Coding
  import SSTable
  import Wal

  /** The batch whose record is torn, and the acknowledged one behind it. */
  const TORN_VALUE: Bytes := [0, 0, 0, 0, 0, 0, 0, 0, 0, 0, 0, 0, 0, 0, 0, 0, 0, 0, 0, 0]
  const TORN_BATCH: Batch := [Put([0], TORN_VALUE)]
  const NEXT_BATCH: Batch := [Put([1], [2])]

  function OpenWith(cfg: Config): Event {
    OpenCall([], cfg, true, false)
  }

  function OpenStep(cfg: Config): RawStep {
    RawStep(OpenWith(cfg), RawFinished)
  }

  function TornStep(): RawStep {
    RawStep(WriteCall(TORN_BATCH), RawDiesAt(0, FirstBytes(8)))
  }

  function WriteStep(): RawStep {
    RawStep(WriteCall(NEXT_BATCH), RawFinished)
  }

  function KillStep(): RawStep {
    RawStep(Kill, RawFinished)
  }

  /** A new store dies eight bytes into a record and is opened again. */
  function Before(cfg: Config): seq<RawStep> {
    [OpenStep(cfg)] + ([TornStep()] + ([OpenStep(cfg)] + []))
  }

  /** Then it acknowledges a short write and is killed. */
  function Steps(cfg: Config): seq<RawStep> {
    [OpenStep(cfg)] + ([TornStep()] + ([OpenStep(cfg)] + ([WriteStep()] + ([KillStep()] + []))))
  }

  // ---- The states on the way ----

  const START: State := State(EMPTY, 1, [[], [], [], [], [], []])
  const CLEAN: Disk := Disk(true, Some(INITIAL), map[], Some(Log([], false)))
  const TORN: Disk := Disk(true, Some(INITIAL), map[], Some(Log([], true)))

  function FirstUp(cfg: Config): Sys {
    Up(START, CLEAN, cfg, false, false, false)
  }

  function SecondUp(cfg: Config): Sys {
    Up(START, TORN, cfg, false, false, false)
  }

  function Wrote(cfg: Config): Sys {
    Up(Logged(START, NEXT_BATCH), TORN, cfg, false, false, true)
  }

  function WithLog(log: Bytes): RawDisk {
    RawDisk(true, Some(Manifests.Encode(INITIAL)), map[], Some(log))
  }

  function RawClean(): RawDisk {
    WithLog([])
  }

  /** The eight bytes that reach the log before the first death. */
  function LeftOver(): Bytes {
    Prefix(Wal.Frame(EncodeOps(TORN_BATCH)), 8)
  }

  function RawLeft(): RawDisk {
    WithLog(LeftOver())
  }

  function RawWrote(): RawDisk {
    WithLog(LeftOver() + Wal.Frame(EncodeOps(NEXT_BATCH)))
  }

  lemma OnePut(key: Bytes, value: Bytes)
    requires |key| == 1 && |value| < 128
    ensures BatchEncodable([Put(key, value)])
    ensures |value| + 4 <= |EncodeOps([Put(key, value)])| <= |value| + 12
  {
    hide Coding.Varint32, U32;
    Coding.VarintRoundTrip(U32(|key|), []);
    Coding.VarintRoundTrip(U32(|value|), []);
    assert [Put(key, value)][1..] == [];
    assert EncodeOps([Put(key, value)]) == EncodeOp(Put(key, value)) + EncodeOps([]);
  }

  lemma Sizes()
    ensures BatchEncodable(TORN_BATCH) && BatchEncodable(NEXT_BATCH)
    ensures 8 + |Wal.Frame(EncodeOps(NEXT_BATCH))| < |Wal.Frame(EncodeOps(TORN_BATCH))|
  {
    hide BatchEncodable, EncodeOps, Wal.Frame;
    OnePut([0], TORN_VALUE);
    OnePut([1], [2]);
    Wal.FrameShape(EncodeOps(TORN_BATCH));
    Wal.FrameShape(EncodeOps(NEXT_BATCH));
  }

  lemma StartHeld(d: Disk)
    requires d == NO_DISK || d == CLEAN || d == TORN
    ensures Holds(d, START) && Recover(d) == Some(START)
  {
    hide ManifestOf, Recover, MemReplay;
    FreshDisk();
    HoldsIffRecovers(d, START);
  }

  // ---- One step at a time ----

  lemma FirstOpen(cfg: Config)
    requires cfg.background && ConfigOk(cfg)
    ensures OutcomeOf(Down(NO_DISK), OpenWith(cfg)) == Some((START, [CreateDir, CreateLog, SaveManifest(INITIAL)]))
    ensures After(Down(NO_DISK), OpenWith(cfg), Finished) == FirstUp(cfg)
    ensures RawAfter(NO_RAW_DISK, Down(NO_DISK), OpenWith(cfg), RawFinished) == RawClean()
  {
    hide Recover, LiveMetas, Manifests.Encode, Apply, RawApply;
    StartHeld(NO_DISK);
    var a, b, c := CreateDir, CreateLog, SaveManifest(INITIAL);
    var es := OpenEffects(NO_DISK, []);
    assert es == [a, b, c];
    ThreeEffects(NO_DISK, NO_RAW_DISK, a, b, c);
    FreshEffects();
  }

  lemma ThreeEffects(d: Disk, r: RawDisk, a: Effect, b: Effect, c: Effect)
    ensures ApplyAll(d, [a, b, c]) == Apply(Apply(Apply(d, a), b), c)
    ensures RawApplyAll(r, [a, b, c]) == RawApply(RawApply(RawApply(r, a), b), c)
  {
    hide Apply, RawApply;
    assert [a, b, c][1..] == [b, c] && [b, c][1..] == [c] && [c][1..] == [];
    assert RawApplyAll(RawApply(RawApply(RawApply(r, a), b), c), []) == RawApply(RawApply(RawApply(r, a), b), c);
    ApplyAllNone(Apply(Apply(Apply(d, a), b), c));
    assert ApplyAll(Apply(d, a), [b, c]) == ApplyAll(Apply(Apply(d, a), b), [c]);
    assert RawApplyAll(RawApply(r, a), [b, c]) == RawApplyAll(RawApply(RawApply(r, a), b), [c]);
  }

  lemma FreshEffects()
    ensures Apply(Apply(Apply(NO_DISK, CreateDir), CreateLog), SaveManifest(INITIAL)) == CLEAN
    ensures RawApply(RawApply(RawApply(NO_RAW_DISK, CreateDir), CreateLog), SaveManifest(INITIAL)) == RawClean()
  {
    hide Manifests.Encode;
  }

  lemma TornWrite(cfg: Config)
    requires cfg.background && ConfigOk(cfg)
    ensures var e, cut := WriteCall(TORN_BATCH), RawDiesAt(0, FirstBytes(8));
            OutcomeOf(FirstUp(cfg), e) == Some((Logged(START, TORN_BATCH), [AppendLog(TORN_BATCH)])) &&
            AbsCut(FirstUp(cfg), e, cut) == DiesAt(0, Partly) &&
            After(FirstUp(cfg), e, DiesAt(0, Partly)) == Down(TORN) &&
            RawAfter(RawClean(), FirstUp(cfg), e, cut) == RawLeft()
  {
    hide Manifests.Encode, Wal.Frame, EncodeOps, MemApply;
    Sizes();
    var es := [AppendLog(TORN_BATCH)];
    assert es[..0] == [];
    assert [] + LeftOver() == LeftOver();
  }

  lemma SecondOpen(cfg: Config)
    requires cfg.background && ConfigOk(cfg)
    ensures OutcomeOf(Down(TORN), OpenWith(cfg)) == Some((START, []))
    ensures After(Down(TORN), OpenWith(cfg), Finished) == SecondUp(cfg)
    ensures RawAfter(RawLeft(), Down(TORN), OpenWith(cfg), RawFinished) == RawLeft()
  {
    hide Recover, LiveMetas, Manifests.Encode, Wal.Frame, EncodeOps;
    StartHeld(TORN);
    assert OpenEffects(TORN, []) == [];
  }

  lemma AcknowledgedWrite(cfg: Config)
    requires cfg.background && ConfigOk(cfg)
    ensures var e := WriteCall(NEXT_BATCH);
            After(SecondUp(cfg), e, Finished) == Wrote(cfg) &&
            RawAfter(RawLeft(), SecondUp(cfg), e, RawFinished) == RawWrote()
  {
    hide Manifests.Encode, Wal.Frame, EncodeOps, MemApply;
    var a := AppendLog(NEXT_BATCH);
    ApplyAllOne(TORN, a);
    assert [a][1..] == [];
    assert RawApplyAll(RawApply(RawLeft(), a), []) == RawApply(RawLeft(), a);
  }

  // ---- The run ----

  /** What the first step of a run contributes to each of the run's functions. */
  lemma RunCons(s: Sys, r: RawDisk, hist: seq<Batch>, x: RawStep, rest: seq<RawStep>)
    ensures var cut := AbsCut(s, x.event, x.cut);
            var s1, hist1 := After(s, x.event, cut), History(hist, s, x.event, cut);
            var steps := AbsSteps(s, [x] + rest);
            RawRun(s, r, [x] + rest) == RawRun(s1, RawAfter(r, s, x.event, x.cut), rest) &&
            Run(s, hist, steps) == Run(s1, hist1, AbsSteps(s1, rest)) &&
            Acknowledged(s, steps) ==
              (if Accepts(s, x.event) && cut.Finished? then [x.event.batch] else []) +
                  Acknowledged(s1, AbsSteps(s1, rest))
  {
    hide AbsCut, After, RawAfter, History, Accepts;
    assert ([x] + rest)[1..] == rest;
    var cut := AbsCut(s, x.event, x.cut);
    var more := AbsSteps(After(s, x.event, cut), rest);
    assert AbsSteps(s, [x] + rest) == [Step(x.event, cut)] + more;
    assert ([Step(x.event, cut)] + more)[1..] == more;
  }

  lemma Killed(cfg: Config)
    requires cfg.background && ConfigOk(cfg)
    ensures After(Wrote(cfg), Kill, Finished) == Down(TORN)
    ensures RawAfter(RawWrote(), Wrote(cfg), Kill, RawFinished) == RawWrote()
  {
    hide Logged, RawWrote;
  }

  /** What each step counts for: only the second write is acknowledged, and the first is not in the log. */
  lemma Counts(cfg: Config)
    ensures !Accepts(Down(NO_DISK), OpenWith(cfg)) && !Accepts(Down(TORN), OpenWith(cfg)) && !Accepts(Wrote(cfg), Kill)
    ensures Accepts(FirstUp(cfg), WriteCall(TORN_BATCH)) && Accepts(SecondUp(cfg), WriteCall(NEXT_BATCH))
    ensures History([], Down(NO_DISK), OpenWith(cfg), Finished) == []
    ensures History([], FirstUp(cfg), WriteCall(TORN_BATCH), DiesAt(0, Partly)) == []
    ensures History([], Down(TORN), OpenWith(cfg), Finished) == []
    ensures History([], SecondUp(cfg), WriteCall(NEXT_BATCH), Finished) == [NEXT_BATCH]
    ensures History([NEXT_BATCH], Wrote(cfg), Kill, Finished) == [NEXT_BATCH]
  {
    hide Logged;
  }

  /** The bytes the run leaves, and the history it has acknowledged. */
  lemma RunEnds(cfg: Config)
    requires cfg.background && ConfigOk(cfg)
    ensures var steps := AbsSteps(Down(NO_DISK), Steps(cfg));
            RawRun(Down(NO_DISK), NO_RAW_DISK, Steps(cfg)) == RawWrote() &&
            Run(Down(NO_DISK), [], steps).1 == [NEXT_BATCH] && Acknowledged(Down(NO_DISK), steps) == [NEXT_BATCH]
  {
    hide RawRun, AbsSteps, Run, Acknowledged, Accepts, History, After, RawAfter, OutcomeOf, OpenWith;
    hide RawClean, RawLeft, RawWrote, FirstUp, SecondUp, Wrote;
    var last := [KillStep()] + [];
    var four := [WriteStep()] + last;
    var three := [OpenStep(cfg)] + four;
    var two := [TornStep()] + three;
    Counts(cfg);
    FirstOpen(cfg);
    RunCons(Down(NO_DISK), NO_RAW_DISK, [], OpenStep(cfg), two);
    TornWrite(cfg);
    RunCons(FirstUp(cfg), RawClean(), [], TornStep(), three);
    SecondOpen(cfg);
    RunCons(Down(TORN), RawLeft(), [], OpenStep(cfg), four);
    AcknowledgedWrite(cfg);
    RunCons(SecondUp(cfg), RawLeft(), [], WriteStep(), last);
    Killed(cfg);
    RunCons(Wrote(cfg), RawWrote(), [NEXT_BATCH], KillStep(), []);
    NoSteps(Down(TORN), RawWrote(), [NEXT_BATCH]);
  }

  lemma NoSteps(s: Sys, r: RawDisk, hist: seq<Batch>)
    ensures AbsSteps(s, []) == [] && RawRun(s, r, []) == r && Run(s, hist, []) == (s, hist) && Acknowledged(s, []) == []
    ensures RawLegal(s, [])
  {
  }

  lemma LegalCons(s: Sys, x: RawStep, rest: seq<RawStep>)
    requires RawEnabled(s, x) && RawLegal(After(s, x.event, AbsCut(s, x.event, x.cut)), rest)
    ensures RawLegal(s, [x] + rest)
  {
    hide RawEnabled, After, AbsCut;
    assert ([x] + rest)[1..] == rest;
  }

  lemma FirstEnabled(cfg: Config)
    requires cfg.background && ConfigOk(cfg)
    ensures RawEnabled(Down(NO_DISK), OpenStep(cfg))
  {
    hide OutcomeOf, EffectsFit, After, RawAfter;
    FirstOpen(cfg);
    EffectsFitHere();
  }

  lemma SecondEnabled(cfg: Config)
    requires cfg.background && ConfigOk(cfg)
    ensures RawEnabled(Down(TORN), OpenStep(cfg))
  {
    hide OutcomeOf, EffectsFit, After, RawAfter;
    SecondOpen(cfg);
    EffectsFitHere();
  }

  lemma TornEnabled(cfg: Config)
    requires cfg.background && ConfigOk(cfg)
    ensures RawEnabled(FirstUp(cfg), TornStep())
  {
    hide OutcomeOf, EffectsFit, After, RawAfter, AbsCut, Logged;
    TornWrite(cfg);
    EffectsFitHere();
  }

  /** Up to the second open the run is legal. */
  lemma LegalSoFar(cfg: Config)
    requires cfg.background && ConfigOk(cfg)
    ensures RawLegal(Down(NO_DISK), Before(cfg))
  {
    hide RawLegal, RawEnabled, After, RawAfter, OutcomeOf, OpenWith, RawClean, RawLeft, FirstUp, SecondUp;
    FirstEnabled(cfg);
    SecondEnabled(cfg);
    TornEnabled(cfg);
    FirstOpen(cfg);
    TornWrite(cfg);
    SecondOpen(cfg);
    NoSteps(SecondUp(cfg), RawLeft(), []);
    LegalCons(Down(TORN), OpenStep(cfg), []);
    LegalCons(FirstUp(cfg), TornStep(), [OpenStep(cfg)] + []);
    LegalCons(Down(NO_DISK), OpenStep(cfg), [TornStep()] + ([OpenStep(cfg)] + []));
  }

  lemma EffectsFitHere()
    ensures EffectsFit([CreateDir, CreateLog, SaveManifest(INITIAL)])
    ensures EffectsFit([AppendLog(TORN_BATCH)]) && EffectsFit([])
  {
    hide BatchEncodable;
    Sizes();
  }

  lemma FreshOpen()
    ensures RawOpen(RawClean()) == Some(RawOfState(START))
  {
    hide RawOpen, RawOfState, Rep, Recover, Manifests.Encode;
    StartHeld(CLEAN);
    FreshRep();
    RawOpenAgrees(RawClean(), CLEAN);
  }

  lemma FreshRep()
    ensures Rep(RawClean(), CLEAN)
  {
    hide Manifests.Encode;
    EmptyLog();
  }

  /**
   * The acknowledged write of the run is lost: the user's map should have its key, and the bytes open into the
   * empty store.
   */
  lemma AcknowledgedWriteLost(cfg: Config)
    requires cfg.background && ConfigOk(cfg)
    ensures RawLegal(Down(NO_DISK), Before(cfg))
    ensures var steps := AbsSteps(Down(NO_DISK), Steps(cfg));
            var hist := Run(Down(NO_DISK), [], steps).1;
            Acknowledged(Down(NO_DISK), steps) == hist == [NEXT_BATCH] && UserMap(hist) == map[[1] := [2]] &&
            RawOpen(RawRun(Down(NO_DISK), NO_RAW_DISK, Steps(cfg))) == Some(RawOfState(START)) && Abs(START) == map[]
  {
    hide RawRun, AbsSteps, Run, Acknowledged, RawLegal, RawOpen, RawOfState, Abs, Wal.Replay, Wal.Frame, EncodeOps;
    hide BatchEncodable, Manifests.Encode;
    LegalSoFar(cfg);
    RunEnds(cfg);
    Sizes();
    FreshDisk();
    FreshOpen();
    Wal.TornNothing();
    ShortWriteLost(RawClean(), TORN_BATCH, NEXT_BATCH, 8);
    assert [] + LeftOver() == LeftOver();
    NextMap();
  }

  lemma NextMap()
    ensures UserMap([NEXT_BATCH]) == map[[1] := [2]]
  {
    var b: Batch, m: Plain := NEXT_BATCH, map[];
    assert [b][1..] == [] && b[1..] == [];
    assert PlainApplyAll(m, [b]) == PlainApplyAll(PlainApply(m, b), []) == PlainApply(m, b);
    assert PlainApply(m, b) == PlainApply(m[[1] := [2]], []) == m[[1] := [2]];
  }
}
