/** Whole runs: client calls, background work, close, crashes at any point and reopening, in any order. */
module Runs {
  import opened Bytes
  import opened Kv
  import opened MemTables
  import opened Manifests
  import opened Engine
  import opened Levels
  import opened Compaction
  import opened Recovery
  import SSTable

  /**
   * A store that is open, with the options it was opened with and the flags the mutex guards, or a directory nobody
   * has open.
   */
  datatype Sys =
    | Up(st: State, disk: Disk, cfg: Config, closing: bool, closed: bool, requested: bool)
    | Down(disk: Disk)

  /**
   * Each critical section under the mutex is one event. OpenCall has the options of this open, which need not be
   * those of an earlier one, and lists the directory in the given order.
   */
  datatype Event =
    | WriteCall(batch: Batch)
    | FlushCall
    | BackgroundRound
    | CloseBegin
    | CloseFinish
    | OpenCall(order: seq<nat>, cfg: Config, createIfMissing: bool, errorIfExists: bool)
    | Kill

  /** An event runs to its end, or the process dies in its i-th file operation. */
  datatype Cut = Finished | DiesAt(i: nat, q: Progress)

  datatype Step = Step(event: Event, cut: Cut)

  /** The options under which the compaction loop ends. */
  predicate ConfigOk(cfg: Config) {
    cfg.l0Trigger >= 1
  }

  // ---- One event ----

  /**
   * What the code's own guards allow. Two conditions are not guards of the code: that no write is accepted while
   * replay would leave the end of the log unread, and that a store is opened with a trigger of at least 1.
   */
  ghost predicate Enabled(s: Sys, e: Event) {
    match e
    case WriteCall(b) => s.Up? && (s.closed || b == [] || (s.disk.log.Some? && !s.disk.log.value.torn))
    case FlushCall => s.Up?
    case BackgroundRound => s.Up? && s.cfg.background && s.requested && !s.closing
    case CloseBegin => s.Up? && !s.closed
    case CloseFinish => s.Up? && s.closing && !s.closed
    case OpenCall(order, cfg, _, _) => s.Down? && ConfigOk(cfg) && forall n :: n in s.disk.files <==> n in order
    case Kill => s.Up?
  }

  /** Open reports an error before it touches anything. */
  predicate Refuses(created: bool, createIfMissing: bool, errorIfExists: bool) {
    if created then errorIfExists else !createIfMissing
  }

  /** The state an event would end in and its file operations. */
  function OutcomeOf(s: Sys, e: Event): Option<Outcome> {
    match s
    case Up(st, d, cfg, closing, closed, requested) =>
      if |st.levels| != MAX_LEVELS || !ConfigOk(cfg) then None
      else
        (match e
         case WriteCall(b) => Some(if closed then (st, []) else Write(st, b, cfg))
         case FlushCall => Some(FlushAndCompact(st, cfg))
         case BackgroundRound => Some(FlushAndCompact(st, cfg))
         case CloseBegin => Some((st, []))
         case CloseFinish => Some(CloseEnd(st, cfg))
         case _ => None)
    case Down(d) =>
      if e.OpenCall? && !Refuses(d.created, e.createIfMissing, e.errorIfExists) then
        match Recover(d) case None => None case Some(st) => Some((st, OpenEffects(d, e.order)))
      else None
  }

  function After(s: Sys, e: Event, cut: Cut): Sys {
    if e.Kill? then Down(s.disk)
    else
      match OutcomeOf(s, e)
      case None => s
      case Some((st', es)) =>
        match cut
        case DiesAt(i, q) => if i < |es| then Down(CrashAt(s.disk, es, i, q)) else s
        case Finished =>
          var d' := ApplyAll(s.disk, es);
          if s.Down? then Up(st', d', e.cfg, false, false, false)
          else
            match e
            case WriteCall(b) => Up(st', d', s.cfg, s.closing, s.closed,
                s.requested || (s.cfg.background && !s.closed && b != []))
            case BackgroundRound => Up(st', d', s.cfg, s.closing, s.closed, false)
            case CloseBegin => Up(st', d', s.cfg, true, s.closed, s.requested)
            case CloseFinish => Up(st', d', s.cfg, s.closing, true, s.requested)
            case _ => Up(st', d', s.cfg, s.closing, s.closed, s.requested)
  }

  /** A write that does something: neither empty nor refused. */
  predicate Accepts(s: Sys, e: Event) {
    e.WriteCall? && s.Up? && !s.closed && e.batch != []
  }

  /**
   * The batches that count: those acknowledged, and at most the one in flight when the process died, if its
   * record had reached the log whole.
   */
  function History(hist: seq<Batch>, s: Sys, e: Event, cut: Cut): seq<Batch> {
    if Accepts(s, e) && (cut.Finished? || Landed(cut.i, cut.q)) then hist + [e.batch] else hist
  }

  ghost predicate CutOk(s: Sys, e: Event, cut: Cut) {
    cut.DiesAt? ==> !e.Kill? && OutcomeOf(s, e).Some? && cut.i < |OutcomeOf(s, e).value.1|
  }

  // ---- The invariant of a run ----

  function UserMap(hist: seq<Batch>): Plain {
    PlainApplyAll(map[], hist)
  }

  /** The running store, or what Open will find, shows the user exactly the batches of the history. */
  ghost predicate SysOk(s: Sys, hist: seq<Batch>) {
    match s
    case Up(st, d, cfg, closing, closed, _) =>
      ConfigOk(cfg) && Inv(st) && Synced(st, d) && Abs(st) == UserMap(hist) &&
      (closed ==> Visible(LevelsMap(st.levels)) == UserMap(hist) && d.manifest.Some?)
    case Down(d) => RecoversTo(d, UserMap(hist))
  }

  lemma WriteStep(s: Sys, b: Batch, cut: Cut, hist: seq<Batch>)
    requires SysOk(s, hist) && Enabled(s, WriteCall(b)) && CutOk(s, WriteCall(b), cut)
    ensures SysOk(After(s, WriteCall(b), cut), History(hist, s, WriteCall(b), cut))
  {
    hide Inv, Synced, Abs, Write, PlainApplyAll, PlainApply, LevelsMap, Visible, RecoversTo, Landed, ApplyAll;
    InvLevels(s.st);
    if s.closed {
      ApplyAllNone(s.disk);
    } else {
      SyncedHolds(s.st, s.disk);
      WriteSafe(s.st, s.disk, b, s.cfg);
      PlainApplyAllSnoc(map[], hist, b);
      var (st', es) := Write(s.st, b, s.cfg);
      if b == [] {
        NoOps(Abs(s.st));
        EmptyWrite(s.st, s.cfg);
      }
    }
  }

  lemma NoOps(m: Plain)
    ensures PlainApply(m, []) == m
  {
  }

  lemma EmptyWrite(st: State, cfg: Config)
    requires |st.levels| == MAX_LEVELS && cfg.l0Trigger >= 1
    ensures Write(st, [], cfg) == (st, [])
  {
  }

  /** After a flush the levels alone show the user's map. */
  lemma EmptyMemtable(st: State)
    requires st.mem.table == map[]
    ensures Visible(LevelsMap(st.levels)) == Abs(st)
  {
    hide LevelsMap, Visible;
    assert LevelsMap(st.levels) + map[] == LevelsMap(st.levels);
  }

  lemma FlushStep(s: Sys, e: Event, cut: Cut, hist: seq<Batch>)
    requires e.FlushCall? || e.BackgroundRound?
    requires SysOk(s, hist) && Enabled(s, e) && CutOk(s, e, cut)
    ensures SysOk(After(s, e, cut), History(hist, s, e, cut))
  {
    hide Inv, Synced, Abs, FlushAndCompact, PlainApplyAll, LevelsMap, Visible, RecoversTo, ApplyAll;
    InvLevels(s.st);
    FlushAndCompactSafe(s.st, s.disk, s.cfg);
    var (st', es) := FlushAndCompact(s.st, s.cfg);
    EmptyMemtable(st');
    ManifestStays(s.disk, es);
    if cut.DiesAt? { CrashSafeAt(s.disk, es, Abs(s.st), cut.i, cut.q); }
  }

  lemma CloseStep(s: Sys, e: Event, cut: Cut, hist: seq<Batch>)
    requires e.CloseBegin? || e.CloseFinish?
    requires SysOk(s, hist) && Enabled(s, e) && CutOk(s, e, cut)
    ensures SysOk(After(s, e, cut), History(hist, s, e, cut))
  {
    hide Inv, Synced, Abs, CloseEnd, PlainApplyAll, LevelsMap, Visible, RecoversTo, ApplyAll;
    InvLevels(s.st);
    ApplyAllNone(s.disk);
    if e.CloseFinish? {
      CloseEndSafe(s.st, s.disk, s.cfg);
      var (st', es) := CloseEnd(s.st, s.cfg);
      if cut.DiesAt? { CrashSafeAt(s.disk, es, Abs(s.st), cut.i, cut.q); }
    }
  }

  lemma OpenStep(s: Sys, e: Event, cut: Cut, hist: seq<Batch>)
    requires e.OpenCall?
    requires SysOk(s, hist) && Enabled(s, e) && CutOk(s, e, cut)
    ensures SysOk(After(s, e, cut), History(hist, s, e, cut))
    ensures cut.Finished? ==> After(s, e, cut).Up? || Refuses(s.disk.created, e.createIfMissing, e.errorIfExists)
  {
    hide Inv, Synced, Abs, PlainApplyAll, LevelsMap, Visible, Holds, ApplyAll, OpenEffects, Recover;
    var st :| Holds(s.disk, st) && Inv(st) && Abs(st) == UserMap(hist);
    HoldsIffRecovers(s.disk, st);
    OpenSafe(s.disk, st, e.order);
    RecoversBy(s.disk, st);
    if cut.DiesAt? { CrashSafeAt(s.disk, OpenEffects(s.disk, e.order), Abs(st), cut.i, cut.q); }
  }

  lemma KillStep(s: Sys, cut: Cut, hist: seq<Batch>)
    requires SysOk(s, hist) && s.Up?
    ensures SysOk(After(s, Kill, cut), History(hist, s, Kill, cut))
  {
    hide Inv, Abs, Holds, PlainApplyAll, LevelsMap, Visible;
    SyncedHolds(s.st, s.disk);
    RecoversBy(s.disk, s.st);
  }

  /** Every enabled event, finished or cut short anywhere, keeps the invariant of the run. */
  lemma EveryStepKeeps(s: Sys, step: Step, hist: seq<Batch>)
    requires SysOk(s, hist) && Enabled(s, step.event) && CutOk(s, step.event, step.cut)
    ensures SysOk(After(s, step.event, step.cut), History(hist, s, step.event, step.cut))
  {
    hide SysOk, After, History, CutOk;
    match step.event
    case WriteCall(b) => WriteStep(s, b, step.cut, hist);
    case FlushCall => FlushStep(s, step.event, step.cut, hist);
    case BackgroundRound => FlushStep(s, step.event, step.cut, hist);
    case CloseBegin => CloseStep(s, step.event, step.cut, hist);
    case CloseFinish => CloseStep(s, step.event, step.cut, hist);
    case OpenCall(_, _, _, _) => OpenStep(s, step.event, step.cut, hist);
    case Kill => KillStep(s, step.cut, hist);
  }

  // ---- Runs of any length ----

  ghost predicate Legal(s: Sys, steps: seq<Step>)
    decreases |steps|
  {
    steps == [] ||
    (Enabled(s, steps[0].event) && CutOk(s, steps[0].event, steps[0].cut) &&
     Legal(After(s, steps[0].event, steps[0].cut), steps[1..]))
  }

  function Run(s: Sys, hist: seq<Batch>, steps: seq<Step>): (Sys, seq<Batch>)
    decreases |steps|
  {
    if steps == [] then (s, hist)
    else Run(After(s, steps[0].event, steps[0].cut), History(hist, s, steps[0].event, steps[0].cut), steps[1..])
  }

  lemma {:induction false} RunKeeps(s: Sys, hist: seq<Batch>, steps: seq<Step>)
    requires SysOk(s, hist) && Legal(s, steps)
    ensures var (s', hist') := Run(s, hist, steps); SysOk(s', hist')
    decreases |steps|
  {
    hide SysOk, Enabled, CutOk, After, History;
    if steps != [] {
      EveryStepKeeps(s, steps[0], hist);
      RunKeeps(After(s, steps[0].event, steps[0].cut), History(hist, s, steps[0].event, steps[0].cut), steps[1..]);
    }
  }

  // ---- The history is what was acknowledged ----

  /** The batches of the writes that were acknowledged, in order. */
  function Acknowledged(s: Sys, steps: seq<Step>): seq<Batch>
    decreases |steps|
  {
    if steps == [] then []
    else
      (if Accepts(s, steps[0].event) && steps[0].cut.Finished? then [steps[0].event.batch] else [])
      + Acknowledged(After(s, steps[0].event, steps[0].cut), steps[1..])
  }

  /** The batches of all writes, those the process died in among them, in order. */
  function Attempted(s: Sys, steps: seq<Step>): seq<Batch>
    decreases |steps|
  {
    if steps == [] then []
    else
      (if Accepts(s, steps[0].event) then [steps[0].event.batch] else [])
      + Attempted(After(s, steps[0].event, steps[0].cut), steps[1..])
  }

  /** How often the process died inside an event. */
  function Deaths(steps: seq<Step>): nat {
    if steps == [] then 0 else (if steps[0].cut.DiesAt? then 1 else 0) + Deaths(steps[1..])
  }

  /** a is b with some elements left out. */
  predicate Subsequence(a: seq<Batch>, b: seq<Batch>)
    decreases |b|
  {
    a == [] ||
    (b != [] && ((a[0] == b[0] && Subsequence(a[1..], b[1..])) || Subsequence(a, b[1..])))
  }

  /**
   * Every acknowledged batch, in order, and besides these only whole batches of writes the process died in, at most
   * one for each death.
   */
  predicate Written(hist: seq<Batch>, s: Sys, steps: seq<Step>) {
    Subsequence(Acknowledged(s, steps), hist) && Subsequence(hist, Attempted(s, steps)) &&
    |hist| <= |Acknowledged(s, steps)| + Deaths(steps)
  }

  lemma SubsequenceCons(a: seq<Batch>, b: seq<Batch>, x: Batch)
    requires Subsequence(a, b)
    ensures Subsequence(a, [x] + b) && Subsequence([x] + a, [x] + b)
  {
    assert ([x] + b)[1..] == b && ([x] + a)[1..] == a;
  }

  /** One step's share of what a run acknowledges, attempts and survives. */
  lemma WrittenStep(more: seq<Batch>, s: Sys, steps: seq<Step>)
    requires steps != [] && Written(more, After(s, steps[0].event, steps[0].cut), steps[1..])
    ensures Written(History([], s, steps[0].event, steps[0].cut) + more, s, steps)
  {
    hide After, Landed, Subsequence;
    var e, cut := steps[0].event, steps[0].cut;
    var acked := Acknowledged(After(s, e, cut), steps[1..]);
    var attempted := Attempted(After(s, e, cut), steps[1..]);
    var grown := History([], s, e, cut) + more;
    if Accepts(s, e) {
      SubsequenceCons(acked, more, e.batch);
      SubsequenceCons(more, attempted, e.batch);
      assert grown == if cut.Finished? || Landed(cut.i, cut.q) then [e.batch] + more else more;
      assert Acknowledged(s, steps) == if cut.Finished? then [e.batch] + acked else acked;
      assert Attempted(s, steps) == [e.batch] + attempted;
    } else {
      assert grown == more && Acknowledged(s, steps) == acked && Attempted(s, steps) == attempted;
    }
  }

  lemma NothingWritten(s: Sys)
    ensures Written([], s, [])
  {
  }

  /** What a run adds to the history it starts from. */
  lemma {:induction false} HistoryGrows(s: Sys, hist: seq<Batch>, steps: seq<Step>) returns (grown: seq<Batch>)
    ensures Run(s, hist, steps).1 == hist + grown && Written(grown, s, steps)
    decreases |steps|
  {
    hide After, Landed, Written;
    if steps == [] {
      NothingWritten(s);
      grown := [];
      assert hist + [] == hist;
    } else {
      var e, cut := steps[0].event, steps[0].cut;
      var more := HistoryGrows(After(s, e, cut), History(hist, s, e, cut), steps[1..]);
      WrittenStep(more, s, steps);
      grown := History([], s, e, cut) + more;
      assert History(hist, s, e, cut) + more == hist + grown;
    }
  }

  // ---- Runs from the beginning ----

  lemma NoBatches()
    ensures UserMap([]) == map[]
  {
  }

  lemma FreshSys()
    ensures SysOk(Down(NO_DISK), [])
  {
    hide Inv, Abs, Holds, PlainApplyAll;
    FreshDisk();
    NoBatches();
    RecoversBy(NO_DISK, State(EMPTY, 1, [[], [], [], [], [], []]));
  }

  /** Where a run from a directory that does not exist ends, and what its history is. */
  lemma FreshRun(steps: seq<Step>)
    requires Legal(Down(NO_DISK), steps)
    ensures var (s, hist) := Run(Down(NO_DISK), [], steps); SysOk(s, hist) && Written(hist, Down(NO_DISK), steps)
  {
    hide SysOk, Written, Run, Legal;
    FreshSys();
    RunKeeps(Down(NO_DISK), [], steps);
    var grown := HistoryGrows(Down(NO_DISK), [], steps);
    assert [] + grown == grown;
  }

  /**
   * Crash-safe refinement. From a directory that does not exist, after any legal sequence of writes, flushes,
   * background rounds, closes, crashes inside any file operation and reopenings, each with options of its own: a
   * running store answers every Get, and its iterator shows, the plain map of the history; a directory left behind
   * is opened successfully into such a store; and the history is the acknowledged batches in order, with besides
   * them at most one whole batch for each death.
   */
  lemma CrashSafeRefinement(steps: seq<Step>, key: Bytes)
    requires Legal(Down(NO_DISK), steps)
    ensures var (s, hist) := Run(Down(NO_DISK), [], steps);
            var m := UserMap(hist);
            Written(hist, Down(NO_DISK), steps) &&
            match s
            case Up(st, _, _, _, _, _) =>
              |st.levels| == MAX_LEVELS &&
              Get(st, key) == (if key in m then Some(m[key]) else None) && Snapshot(st) == m
            case Down(d) =>
              Recover(d).Some? && Inv(Recover(d).value) && Abs(Recover(d).value) == m
  {
    hide Inv, Abs, Get, Snapshot, Holds, Run, Legal, Recover, Synced, PlainApplyAll, Visible, LevelsMap, Written;
    FreshRun(steps);
    var (s, hist) := Run(Down(NO_DISK), [], steps);
    match s
    case Up(st, _, _, _, _, _) =>
      InvLevels(st);
      GetIsAbs(st, key);
      SnapshotIsAbs(st);
    case Down(d) =>
      var st :| Holds(d, st) && Inv(st) && Abs(st) == UserMap(hist);
      HoldsIffRecovers(d, st);
  }

  /** No lost, dangling or leftover files: on disk are exactly the tables of the running store, complete. */
  lemma NoLostFiles(steps: seq<Step>)
    requires Legal(Down(NO_DISK), steps)
    ensures var s := Run(Down(NO_DISK), [], steps).0;
            s.Up? ==>
              s.disk.files.Keys == LiveNumbers(s.st.levels) && FilesOnDisk(s.st.levels, s.disk.files) &&
              ManifestOn(s.disk) == ManifestOf(s.st) && (forall n :: n in s.disk.files ==> n < s.st.next)
  {
    hide Inv, Abs, Run, Legal, Visible, LevelsMap, PlainApplyAll, LiveNumbers, ManifestOf, MemReplay, FilesOnDisk;
    hide RecoversTo, Written;
    FreshRun(steps);
    var s := Run(Down(NO_DISK), [], steps).0;
    if s.Up? { LiveBelow(s.st); }
  }

  /**
   * Nor in a directory left by a crash: every file its manifest names is there, complete, and numbered below
   * the manifest's counter, so no new table is ever written over a live one.
   */
  lemma NoDanglingFiles(steps: seq<Step>, n: nat)
    requires Legal(Down(NO_DISK), steps)
    ensures var d := Run(Down(NO_DISK), [], steps).0.disk;
            n in LiveMetas(ManifestOn(d)) ==> n in d.files && d.files[n].Whole? && n < ManifestOn(d).next
  {
    hide Inv, Abs, Run, Legal, Visible, LevelsMap, PlainApplyAll, LiveNumbers, LiveMetas, ManifestOf, MemReplay;
    hide FilesOnDisk, Written;
    FreshRun(steps);
    var (s, hist) := Run(Down(NO_DISK), [], steps);
    var d := s.disk;
    if s.Up? {
      LiveComplete(d, s.st, n);
    } else {
      var st :| Holds(d, st) && Inv(st) && Abs(st) == UserMap(hist);
      LiveComplete(d, st, n);
    }
  }

  lemma LiveComplete(d: Disk, st: State, n: nat)
    requires Holds(d, st) && Inv(st)
    ensures ManifestOn(d) == ManifestOf(st) && ManifestOf(st).next == st.next
    ensures n in LiveMetas(ManifestOn(d)) ==> n in d.files && d.files[n].Whole? && n < st.next
  {
    hide Inv, MemReplay;
    MetasAreLive(st);
    LiveBelow(st);
    if n in LiveNumbers(st.levels) {
      var l, i :| 0 <= l < |st.levels| && 0 <= i < |st.levels[l]| && st.levels[l][i].meta.number == n;
      assert OnDisk(st.levels[l][i], d.files);
    }
  }

  /**
   * A write accepted while Close waits for the background thread is in the tables: once Close has finished,
   * the tables alone show every batch of the history, the acknowledged ones among them, and the manifest that
   * names these tables is on disk.
   */
  lemma ClosedTablesHoldEverything(steps: seq<Step>)
    requires Legal(Down(NO_DISK), steps)
    ensures var (s, hist) := Run(Down(NO_DISK), [], steps);
            s.Up? && s.closed ==>
              Visible(LevelsMap(s.st.levels)) == UserMap(hist) && Written(hist, Down(NO_DISK), steps) &&
              s.disk.manifest == Some(ManifestOf(s.st))
  {
    hide Inv, Abs, Synced, Run, Legal, Visible, LevelsMap, PlainApplyAll, RecoversTo, Written, FilesOnDisk, MemReplay;
    FreshRun(steps);
    var s := Run(Down(NO_DISK), [], steps).0;
    if s.Up? && s.closed { SyncedHolds(s.st, s.disk); }
  }
}
