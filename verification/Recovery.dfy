/** The directory, crashes inside any sequence of file operations, and what Open rebuilds from what is left. */
module Recovery {
  import opened Bytes
  import opened Kv
  import opened MemTables
  import opened Manifests
  import opened Engine
  import opened Levels
  import opened Compaction
  import SSTable

  /** A table file is complete, written with some filter parameters, or was cut short while being written. */
  datatype Content = Whole(entries: seq<Entry>, params: SSTable.FilterParams) | Partial

  /** The batches replay delivers; torn if unreadable bytes follow them. */
  datatype Log = Log(records: seq<Batch>, torn: bool)

  datatype Disk = Disk(created: bool, manifest: Option<Manifest>, files: map<nat, Content>, log: Option<Log>)

  const NO_DISK: Disk := Disk(false, None, map[], None)

  // ---- Effects, whole and cut short ----

  function Apply(d: Disk, e: Effect): Disk {
    match e
    case CreateDir => d.(created := true)
    case WriteTable(n, es, p) => d.(files := d.files[n := Whole(es, p)])
    case SaveManifest(m) => d.(manifest := Some(m))
    case RemoveTable(n) => d.(files := d.files - {n})
    case AppendLog(b) =>
      var l := if d.log == None then Log([], false) else d.log.value;
      d.(log := Some(if l.torn then l else Log(l.records + [b], false)))
    case RemoveLog => d.(log := None)
    case CreateLog => if d.log == None then d.(log := Some(Log([], false))) else d
  }

  function ApplyAll(d: Disk, es: seq<Effect>): Disk
    decreases |es|
  {
    if es == [] then d else ApplyAll(Apply(d, es[0]), es[1..])
  }

  /** How far a file operation got before the process died. */
  datatype Progress = NotStarted | Partly | Done

  /** Appends and table writes can stop midway; the manifest is renamed into place and the rest is atomic. */
  function Torn(d: Disk, e: Effect, p: Progress): Disk {
    match p
    case NotStarted => d
    case Done => Apply(d, e)
    case Partly =>
      match e
      case WriteTable(n, _, _) => d.(files := d.files[n := Partial])
      case AppendLog(_) =>
        var l := if d.log == None then Log([], false) else d.log.value;
        d.(log := Some(l.(torn := true)))
      case _ => d
  }

  /** The directory after a crash in the i-th of the file operations. */
  function CrashAt(d: Disk, es: seq<Effect>, i: nat, p: Progress): Disk
    requires i < |es|
  {
    Torn(ApplyAll(d, es[..i]), es[i], p)
  }

  // ---- What Open rebuilds ----

  function ManifestOn(d: Disk): Manifest {
    match d.manifest case None => INITIAL case Some(m) => m
  }

  function Records(d: Disk): seq<Batch> {
    match d.log case None => [] case Some(l) => l.records
  }

  function LoadFiles(ms: seq<FileMeta>, files: map<nat, Content>): Option<Level> {
    if ms == [] then Some([])
    else if ms[0].number !in files || files[ms[0].number].Partial? then None
    else
      match LoadFiles(ms[1..], files)
      case None => None
      case Some(rest) =>
        var c := files[ms[0].number];
        Some([File(ms[0], c.entries, c.params)] + rest)
  }

  function LoadLevels(levels: seq<seq<FileMeta>>, files: map<nat, Content>): Option<seq<Level>> {
    if levels == [] then Some([])
    else
      match LoadFiles(levels[0], files)
      case None => None
      case Some(level) =>
        match LoadLevels(levels[1..], files)
        case None => None
        case Some(rest) => Some([level] + rest)
  }

  /** The state Open starts from: manifest, readers for every live table, log replayed; None where it fails. */
  function Recover(d: Disk): Option<State> {
    var m := ManifestOn(d);
    if |m.levels| != MAX_LEVELS then None
    else
      match LoadLevels(m.levels, d.files)
      case None => None
      case Some(levels) => Some(State(MemReplay(EMPTY, Records(d)), m.next, levels))
  }

  function LiveMetas(m: Manifest): set<nat> {
    set l, i | 0 <= l < |m.levels| && 0 <= i < |m.levels[l]| :: m.levels[l][i].number
  }

  function Sweep(order: seq<nat>, live: set<nat>): seq<Effect> {
    if order == [] then []
    else (if order[0] in live then [] else [RemoveTable(order[0])]) + Sweep(order[1..], live)
  }

  /** The file operations of Open, which lists the directory in the given order. */
  function OpenEffects(d: Disk, order: seq<nat>): seq<Effect> {
    (if d.created then [] else [CreateDir])
    + Sweep(order, LiveMetas(ManifestOn(d)))
    + (if d.log == None then [CreateLog] else [])
    + (if d.created then [] else [SaveManifest(ManifestOn(d))])
  }

  // ---- The directory holds a state ----

  ghost predicate OnDisk(f: File, files: map<nat, Content>) {
    f.meta.number in files && files[f.meta.number] == Whole(f.entries, f.params)
  }

  ghost predicate FilesOnDisk(levels: seq<Level>, files: map<nat, Content>) {
    forall l, i :: 0 <= l < |levels| && 0 <= i < |levels[l]| ==> OnDisk(levels[l][i], files)
  }

  /** Open of this directory starts from this state. */
  ghost predicate Holds(d: Disk, st: State) {
    && |st.levels| == MAX_LEVELS
    && ManifestOn(d) == ManifestOf(st)
    && FilesOnDisk(st.levels, d.files)
    && st.mem == MemReplay(EMPTY, Records(d))
  }

  lemma {:induction false} LoadFilesBack(level: Level, files: map<nat, Content>)
    requires forall i :: 0 <= i < |level| ==> OnDisk(level[i], files)
    ensures LoadFiles(Metas(level), files) == Some(level)
    decreases |level|
  {
    if level != [] {
      assert OnDisk(level[0], files);
      assert Metas(level)[1..] == Metas(level[1..]);
      LoadFilesBack(level[1..], files);
      assert level == [level[0]] + level[1..];
    }
  }

  lemma {:induction false} LoadFilesParts(ms: seq<FileMeta>, files: map<nat, Content>)
    requires LoadFiles(ms, files).Some?
    ensures var level := LoadFiles(ms, files).value;
            Metas(level) == ms && forall i :: 0 <= i < |level| ==> OnDisk(level[i], files)
    decreases |ms|
  {
    if ms != [] { LoadFilesParts(ms[1..], files); }
  }

  function LevelMetas(levels: seq<Level>): seq<seq<FileMeta>> {
    seq(|levels|, l requires 0 <= l < |levels| => Metas(levels[l]))
  }

  lemma {:induction false} LoadLevelsBack(levels: seq<Level>, files: map<nat, Content>)
    requires FilesOnDisk(levels, files)
    ensures LoadLevels(LevelMetas(levels), files) == Some(levels)
    decreases |levels|
  {
    hide LoadFiles, OnDisk;
    if levels != [] {
      LoadFilesBack(levels[0], files);
      assert LevelMetas(levels)[1..] == LevelMetas(levels[1..]);
      assert FilesOnDisk(levels[1..], files) by {
        assert forall l :: 0 <= l < |levels[1..]| ==> levels[1..][l] == levels[l + 1];
      }
      LoadLevelsBack(levels[1..], files);
      assert levels == [levels[0]] + levels[1..];
    }
  }

  lemma {:induction false} LoadLevelsParts(metas: seq<seq<FileMeta>>, files: map<nat, Content>)
    requires LoadLevels(metas, files).Some?
    ensures var levels := LoadLevels(metas, files).value;
            LevelMetas(levels) == metas && FilesOnDisk(levels, files)
    decreases |metas|
  {
    hide LoadFiles, OnDisk, Metas;
    if metas != [] {
      LoadFilesParts(metas[0], files);
      LoadLevelsParts(metas[1..], files);
      var level, rest := LoadFiles(metas[0], files).value, LoadLevels(metas[1..], files).value;
      var levels := [level] + rest;
      forall l, i | 0 <= l < |levels| && 0 <= i < |levels[l]|
        ensures OnDisk(levels[l][i], files)
      {
        if l > 0 { assert levels[l] == rest[l - 1]; }
      }
    }
  }

  /** A directory holds a state exactly when Open rebuilds that state from it. */
  lemma HoldsIffRecovers(d: Disk, st: State)
    ensures Holds(d, st) <==> Recover(d) == Some(st)
  {
    hide MemReplay, FilesOnDisk, LoadLevels, Metas;
    assert ManifestOf(st).levels == LevelMetas(st.levels);
    if Holds(d, st) { LoadLevelsBack(st.levels, d.files); }
    if Recover(d).Some? { LoadLevelsParts(ManifestOn(d).levels, d.files); }
  }

  // ---- Effects that Open cannot see ----

  /** An effect that leaves what Open rebuilds from manifest m unchanged, even if cut short. */
  ghost predicate Harmless(e: Effect, m: Manifest) {
    match e
    case CreateDir => true
    case WriteTable(n, _, _) => n !in LiveMetas(m)
    case RemoveTable(n) => n !in LiveMetas(m)
    case SaveManifest(m') => m' == m
    case CreateLog => true
    case _ => false
  }

  ghost predicate AllHarmless(es: seq<Effect>, m: Manifest) {
    forall i :: 0 <= i < |es| ==> Harmless(es[i], m)
  }

  lemma LiveNumberInMetas(st: State, l: nat, i: nat)
    requires l < |st.levels| && i < |st.levels[l]|
    ensures st.levels[l][i].meta.number in LiveMetas(ManifestOf(st))
  {
    var m := ManifestOf(st);
    assert m.levels[l] == Metas(st.levels[l]);
    assert m.levels[l][i].number == st.levels[l][i].meta.number;
  }

  lemma MetasAreLive(st: State)
    ensures LiveMetas(ManifestOf(st)) == LiveNumbers(st.levels)
  {
    var m := ManifestOf(st);
    forall n | n in LiveMetas(m)
      ensures n in LiveNumbers(st.levels)
    {
      var l, i :| 0 <= l < |m.levels| && 0 <= i < |m.levels[l]| && m.levels[l][i].number == n;
      assert st.levels[l][i].meta.number == n;
    }
    forall n | n in LiveNumbers(st.levels)
      ensures n in LiveMetas(m)
    {
      var l, i :| 0 <= l < |st.levels| && 0 <= i < |st.levels[l]| && st.levels[l][i].meta.number == n;
      LiveNumberInMetas(st, l, i);
    }
  }

  lemma HarmlessKeepsState(d: Disk, st: State, e: Effect, p: Progress)
    requires Holds(d, st) && Harmless(e, ManifestOf(st))
    ensures Holds(Torn(d, e, p), st)
  {
    hide MemReplay, ManifestOf;
    var d' := Torn(d, e, p);
    forall l, i | 0 <= l < |st.levels| && 0 <= i < |st.levels[l]|
      ensures OnDisk(st.levels[l][i], d'.files)
    {
      LiveNumberInMetas(st, l, i);
      assert OnDisk(st.levels[l][i], d.files);
    }
  }

  lemma {:induction false} HarmlessRun(d: Disk, st: State, es: seq<Effect>)
    requires Holds(d, st) && AllHarmless(es, ManifestOf(st))
    ensures Holds(ApplyAll(d, es), st)
    decreases |es|
  {
    hide Holds, Harmless, ManifestOf, Apply;
    if es != [] {
      assert Harmless(es[0], ManifestOf(st));
      HarmlessKeepsState(d, st, es[0], Done);
      TornDone(d, es[0]);
      assert forall i :: 0 <= i < |es[1..]| ==> es[1..][i] == es[i + 1];
      HarmlessRun(Apply(d, es[0]), st, es[1..]);
    }
  }

  lemma TornDone(d: Disk, e: Effect)
    ensures Torn(d, e, Done) == Apply(d, e) && Torn(d, e, NotStarted) == d
  {
    hide Apply;
  }

  lemma {:induction false} ApplyAllAppend(d: Disk, a: seq<Effect>, b: seq<Effect>)
    ensures ApplyAll(d, a + b) == ApplyAll(ApplyAll(d, a), b)
    decreases |a|
  {
    hide Apply;
    if a == [] {
      assert a + b == b;
    } else {
      assert (a + b)[1..] == a[1..] + b;
      ApplyAllAppend(Apply(d, a[0]), a[1..], b);
    }
  }

  lemma ApplyAllOne(d: Disk, e: Effect)
    ensures ApplyAll(d, [e]) == Apply(d, e)
  {
    hide Apply;
    assert [e][1..] == [];
    assert ApplyAll(Apply(d, e), []) == Apply(d, e);
  }

  // ---- Crash safety of a sequence of effects ----

  /** Open of this directory succeeds, into a well-formed state whose user's map is `map'`. */
  ghost predicate RecoversTo(d: Disk, map': Plain) {
    exists st :: Holds(d, st) && Inv(st) && Abs(st) == map'
  }

  /** Wherever the process dies in these operations, Open finds the same user's map. */
  ghost predicate CrashSafe(d: Disk, es: seq<Effect>, map': Plain) {
    forall i: nat, q :: i < |es| ==> RecoversTo(CrashAt(d, es, i, q), map')
  }

  lemma RecoversBy(d: Disk, st: State)
    requires Holds(d, st) && Inv(st)
    ensures RecoversTo(d, Abs(st))
  {
  }

  lemma CrashSafeNone(d: Disk, map': Plain)
    ensures CrashSafe(d, [], map')
  {
  }

  lemma CrashSafeAppend(d: Disk, a: seq<Effect>, b: seq<Effect>, map': Plain)
    requires CrashSafe(d, a, map') && CrashSafe(ApplyAll(d, a), b, map')
    ensures CrashSafe(d, a + b, map')
  {
    hide RecoversTo, Torn, ApplyAll;
    forall i: nat, q | i < |a + b|
      ensures RecoversTo(CrashAt(d, a + b, i, q), map')
    {
      if i < |a| {
        assert (a + b)[..i] == a[..i];
        assert CrashAt(d, a + b, i, q) == CrashAt(d, a, i, q);
      } else {
        assert (a + b)[..i] == a + b[..i - |a|];
        ApplyAllAppend(d, a, b[..i - |a|]);
        assert CrashAt(d, a + b, i, q) == CrashAt(ApplyAll(d, a), b, i - |a|, q);
      }
    }
  }

  lemma CrashSafeFour(d: Disk, a: seq<Effect>, b: seq<Effect>, c: seq<Effect>, e: seq<Effect>, map': Plain)
    requires CrashSafe(d, a, map')
    requires CrashSafe(ApplyAll(d, a), b, map')
    requires CrashSafe(ApplyAll(ApplyAll(d, a), b), c, map')
    requires CrashSafe(ApplyAll(ApplyAll(ApplyAll(d, a), b), c), e, map')
    ensures CrashSafe(d, a + b + c + e, map')
    ensures ApplyAll(d, a + b + c + e) == ApplyAll(ApplyAll(ApplyAll(ApplyAll(d, a), b), c), e)
  {
    hide CrashSafe, ApplyAll;
    CrashSafeAppend(d, a, b, map');
    ApplyAllAppend(d, a, b);
    CrashSafeAppend(d, a + b, c, map');
    ApplyAllAppend(d, a + b, c);
    CrashSafeAppend(d, a + b + c, e, map');
    ApplyAllAppend(d, a + b + c, e);
  }

  lemma HarmlessSafe(d: Disk, st: State, es: seq<Effect>)
    requires Holds(d, st) && Inv(st) && AllHarmless(es, ManifestOf(st))
    ensures CrashSafe(d, es, Abs(st)) && Holds(ApplyAll(d, es), st)
  {
    hide Holds, Inv, Abs, Harmless, ManifestOf, Torn, ApplyAll, RecoversTo;
    HarmlessRun(d, st, es);
    forall i: nat, q | i < |es|
      ensures RecoversTo(CrashAt(d, es, i, q), Abs(st))
    {
      assert forall j :: 0 <= j < i ==> es[..i][j] == es[j];
      HarmlessRun(d, st, es[..i]);
      HarmlessKeepsState(ApplyAll(d, es[..i]), st, es[i], q);
      RecoversBy(CrashAt(d, es, i, q), st);
    }
  }

  /** A single operation that is all or nothing, from one recoverable state to another with the same map. */
  lemma SwitchSafe(d: Disk, st: State, st': State, e: Effect)
    requires Holds(d, st) && Inv(st) && Holds(Apply(d, e), st') && Inv(st') && Abs(st') == Abs(st)
    requires e.SaveManifest? || e.RemoveLog?
    ensures CrashSafe(d, [e], Abs(st)) && ApplyAll(d, [e]) == Apply(d, e)
  {
    hide Holds, Inv, Abs, RecoversTo;
    ApplyAllOne(d, e);
    forall i: nat, q | i < |[e]|
      ensures RecoversTo(CrashAt(d, [e], i, q), Abs(st))
    {
      assert [e][..i] == [];
      assert ApplyAll(d, []) == d;
      RecoversBy(d, st);
      RecoversBy(Apply(d, e), st');
    }
  }

  // ---- The running store and its directory ----

  /** Open would rebuild exactly the running state, and the table files are exactly the live ones. */
  ghost predicate Synced(st: State, d: Disk) {
    d.created && d.log.Some? && Holds(d, st) && d.files.Keys == LiveNumbers(st.levels)
  }

  lemma LiveBelow(st: State)
    requires Inv(st)
    ensures forall n :: n in LiveNumbers(st.levels) ==> n < st.next
  {
    hide SortedEntries, MetaOf, NoTombstone, AllEntries;
    forall n | n in LiveNumbers(st.levels)
      ensures n < st.next
    {
      var l, i :| 0 <= l < |st.levels| && 0 <= i < |st.levels[l]| && st.levels[l][i].meta.number == n;
      assert FileOk(st.levels[l][i], st.next);
    }
  }

  lemma LiveAfterFlush(levels: seq<Level>, f: File)
    requires levels != []
    ensures LiveNumbers(levels[0 := levels[0] + [f]]) == LiveNumbers(levels) + {f.meta.number}
  {
    var levels' := levels[0 := levels[0] + [f]];
    forall n | n in LiveNumbers(levels')
      ensures n in LiveNumbers(levels) + {f.meta.number}
    {
      var l, i :| 0 <= l < |levels'| && 0 <= i < |levels'[l]| && levels'[l][i].meta.number == n;
      if l != 0 || i < |levels[0]| { assert levels[l][i].meta.number == n; }
    }
    forall n | n in LiveNumbers(levels) + {f.meta.number}
      ensures n in LiveNumbers(levels')
    {
      if n == f.meta.number {
        assert levels'[0][|levels[0]|].meta.number == n;
      } else {
        var l, i :| 0 <= l < |levels| && 0 <= i < |levels[l]| && levels[l][i].meta.number == n;
        assert levels'[l][i].meta.number == n;
      }
    }
  }

  lemma OneWriteHarmless(st: State, es: seq<Entry>, p: SSTable.FilterParams)
    requires Inv(st)
    ensures AllHarmless([WriteTable(st.next, es, p)], ManifestOf(st))
  {
    hide Inv, LiveMetas, LiveNumbers, ManifestOf;
    LiveBelow(st);
    MetasAreLive(st);
  }

  lemma OneCreateHarmless(m: Manifest)
    ensures AllHarmless([CreateLog], m)
  {
  }

  lemma FlushedDisk(d: Disk, number: nat, es: seq<Entry>, p: SSTable.FilterParams, m: Manifest)
    ensures var d1 := Apply(d, WriteTable(number, es, p));
            var d4 := Apply(Apply(Apply(d1, SaveManifest(m)), RemoveLog), CreateLog);
            number in d1.files && d1.files[number] == Whole(es, p) &&
            d4.created == d.created && d4.log == Some(Log([], false)) && d4.files.Keys == d.files.Keys + {number}
  {
  }

  /** A flush: every crash point recovers the same map, and the directory follows the new state. */
  lemma FlushSafe(st: State, d: Disk, cfg: Config)
    requires Inv(st) && Synced(st, d)
    ensures var (st', es) := Flush(st, cfg);
            Synced(st', ApplyAll(d, es)) && CrashSafe(d, es, Abs(st))
    ensures Flush(st, cfg).1 != [] ==> ApplyAll(d, Flush(st, cfg).1).log == Some(Log([], false))
  {
    hide Inv, Abs, ManifestOf, MetaOf, Entries, LiveNumbers, CrashSafe, Holds, AllHarmless, Apply, Contents, LevelsMap;
    InvLevels(st);
    if st.mem.table == map[] {
      CrashSafeNone(d, Abs(st));
      ApplyAllNone(d);
    } else {
      var (st', es) := Flush(st, cfg);
      var p := cfg.filter;
      var entries := Entries(st.mem.table);
      EntriesNonEmpty(st.mem.table);
      var f := NewFile(st.next, entries, p);
      NewFileParts(st.next, entries, p);
      FlushKeepsMap(st, cfg);
      FlushKeepsInv(st, cfg);
      FlushedDisk(d, st.next, entries, p, ManifestOf(st'));
      // the new table file
      var w := [WriteTable(st.next, entries, p)];
      OneWriteHarmless(st, entries, p);
      HarmlessSafe(d, st, w);
      ApplyAllOne(d, w[0]);
      var d1 := Apply(d, w[0]);
      // the new manifest, with the log still there
      var mid := State(st.mem, st'.next, st'.levels);
      var s := [SaveManifest(ManifestOf(st'))];
      MidState(st, d1, f, cfg);
      SwitchSafe(d1, st, mid, s[0]);
      var d2 := Apply(d1, s[0]);
      // the log is removed and created anew
      var r := [RemoveLog];
      LogGone(d2, mid, st');
      SwitchSafe(d2, mid, st', r[0]);
      var d3 := Apply(d2, r[0]);
      var c := [CreateLog];
      OneCreateHarmless(ManifestOf(st'));
      HarmlessSafe(d3, st', c);
      ApplyAllOne(d3, c[0]);
      CrashSafeFour(d, w, s, r, c, Abs(st));
      assert es == w + s + r + c;
      LiveAfterFlush(st.levels, f);
    }
  }

  /** Between the manifest and the log rotation, replay puts back what the new table already holds. */
  lemma MidState(st: State, d1: Disk, f: File, cfg: Config)
    requires Inv(st) && Holds(d1, st) && st.mem.table != map[]
    requires Entries(st.mem.table) != [] && f == NewFile(st.next, Entries(st.mem.table), cfg.filter)
    requires st.next in d1.files && d1.files[st.next] == Whole(Entries(st.mem.table), cfg.filter)
    ensures var st' := Flush(st, cfg).0;
            var mid := State(st.mem, st'.next, st'.levels);
            Holds(Apply(d1, SaveManifest(ManifestOf(st'))), mid) && Inv(mid) && Abs(mid) == Abs(st)
  {
    hide MetaOf, Entries, FilesMap, LevelsOk, MemReplay, Visible, SSTable.EncodeTable;
    InvLevels(st);
    var st' := Flush(st, cfg).0;
    var mid := State(st.mem, st'.next, st'.levels);
    NewFileIs(st.next, Entries(st.mem.table), cfg.filter);
    assert ManifestOf(mid) == ManifestOf(st');
    FlushKeepsInv(st, cfg);
    FlushKeepsMap(st, cfg);
    var levels := st'.levels;
    forall l, i | 0 <= l < |levels| && 0 <= i < |levels[l]|
      ensures OnDisk(levels[l][i], d1.files)
    {
      if l == 0 && i == |st.levels[0]| {
        assert levels[l][i] == f;
      } else {
        assert levels[l][i] == st.levels[l][i];
      }
    }
    assert LevelsMap(st'.levels) + st.mem.table == LevelsMap(st.levels) + st.mem.table;
  }

  lemma LogGone(d: Disk, mid: State, st': State)
    requires Holds(d, mid) && st' == State(EMPTY, mid.next, mid.levels)
    ensures Holds(Apply(d, RemoveLog), st')
  {
    hide FilesOnDisk;
    assert MemReplay(EMPTY, []) == EMPTY;
    assert ManifestOf(st') == ManifestOf(mid);
  }

  // ---- Compaction ----

  lemma LiveAfterCompact(levels: seq<Level>, level: nat, files: Level)
    requires level + 1 < |levels|
    requires forall k, l :: 0 <= k < l < |levels| ==> Numbers(levels[k]) !! Numbers(levels[l])
    ensures LiveNumbers(levels[level := []][level + 1 := files]) ==
            LiveNumbers(levels) - Numbers(levels[level] + levels[level + 1]) + Numbers(files)
  {
    var levels' := levels[level := []][level + 1 := files];
    var gone := Numbers(levels[level] + levels[level + 1]);
    NumbersAppend(levels[level], levels[level + 1]);
    forall n | n in LiveNumbers(levels')
      ensures n in LiveNumbers(levels) - gone + Numbers(files)
    {
      var l, i :| 0 <= l < |levels'| && 0 <= i < |levels'[l]| && levels'[l][i].meta.number == n;
      if l == level + 1 {
        assert files[i].meta.number == n;
      } else {
        assert levels[l][i].meta.number == n;
        assert n in Numbers(levels[l]);
      }
    }
    forall n | n in LiveNumbers(levels) - gone + Numbers(files)
      ensures n in LiveNumbers(levels')
    {
      if n in Numbers(files) {
        var i :| 0 <= i < |files| && files[i].meta.number == n;
        assert levels'[level + 1][i].meta.number == n;
      } else {
        var l, i :| 0 <= l < |levels| && 0 <= i < |levels[l]| && levels[l][i].meta.number == n;
        assert n in Numbers(levels[l]);
        assert levels'[l][i].meta.number == n;
      }
    }
  }

  lemma NumbersAppend(a: Level, b: Level)
    ensures Numbers(a + b) == Numbers(a) + Numbers(b)
  {
    var all := a + b;
    forall n | n in Numbers(a) + Numbers(b)
      ensures n in Numbers(all)
    {
      if n in Numbers(a) {
        var i :| 0 <= i < |a| && a[i].meta.number == n;
        assert all[i].meta.number == n;
      } else {
        var i :| 0 <= i < |b| && b[i].meta.number == n;
        assert all[|a| + i].meta.number == n;
      }
    }
  }

  ghost predicate AllOnDisk(level: Level, files: map<nat, Content>) {
    forall i :: 0 <= i < |level| ==> OnDisk(level[i], files)
  }

  ghost predicate DistinctNumbers(files: Level) {
    forall i, j :: 0 <= i < j < |files| ==> files[i].meta.number != files[j].meta.number
  }

  lemma OneMoreOnDisk(level: Level, f: File, files: map<nat, Content>)
    requires AllOnDisk(level, files) && DistinctNumbers(level + [f])
    ensures AllOnDisk(level + [f], files[f.meta.number := Whole(f.entries, f.params)])
  {
    var all := level + [f];
    forall i | 0 <= i < |all|
      ensures OnDisk(all[i], files[f.meta.number := Whole(f.entries, f.params)])
    {
      if i < |level| {
        assert OnDisk(level[i], files);
        assert all[i].meta.number != all[|level|].meta.number;
      }
    }
  }

  lemma {:induction false} WritesLand(d: Disk, files: Level)
    requires DistinctNumbers(files)
    ensures var d' := ApplyAll(d, Writes(files));
            d' == d.(files := d'.files) && d'.files.Keys == d.files.Keys + Numbers(files) &&
            AllOnDisk(files, d'.files) &&
            (forall n :: n in d.files && n !in Numbers(files) ==> d'.files[n] == d.files[n])
    decreases |files|
  {
    hide Numbers, AllOnDisk, Torn;
    if files == [] {
      NothingToWrite(d.files);
    } else {
      var n := |files| - 1;
      var f := files[n];
      assert files == files[..n] + [f];
      assert DistinctNumbers(files[..n]);
      WritesLand(d, files[..n]);
      var d1 := ApplyAll(d, Writes(files[..n]));
      var e := WriteTable(f.meta.number, f.entries, f.params);
      assert Writes(files) == Writes(files[..n]) + [e];
      ApplyAllAppend(d, Writes(files[..n]), [e]);
      ApplyAllOne(d1, e);
      NumbersSnoc(files[..n], f);
      OneMoreOnDisk(files[..n], f, d1.files);
    }
  }

  lemma NothingToWrite(files: map<nat, Content>)
    ensures Numbers([]) == {} && AllOnDisk([], files)
  {
  }

  lemma {:induction false} RemovalsLand(d: Disk, files: Level)
    ensures var d' := ApplyAll(d, Removals(files));
            d' == d.(files := d'.files) && d'.files == d.files - Numbers(files)
    decreases |files|
  {
    if files != [] {
      var n := |files| - 1;
      var f := files[n];
      assert files == files[..n] + [f];
      RemovalsLand(d, files[..n]);
      assert Removals(files) == Removals(files[..n]) + [RemoveTable(f.meta.number)];
      ApplyAllAppend(d, Removals(files[..n]), [RemoveTable(f.meta.number)]);
      ApplyAllOne(ApplyAll(d, Removals(files[..n])), RemoveTable(f.meta.number));
      NumbersSnoc(files[..n], f);
    } else {
      assert Numbers(files) == {};
      assert d.files - {} == d.files;
    }
  }

  /** A compaction numbers its files one after another from the counter, which it moves behind them. */
  lemma NewFilesNumbered(st: State, level: nat, cfg: Config)
    requires Inv(st) && level + 1 < MAX_LEVELS
    ensures |Compact(st, level, cfg).0.levels| == MAX_LEVELS
    ensures var files := Compact(st, level, cfg).0.levels[level + 1];
            Compact(st, level, cfg).0.next == st.next + |files| &&
            DistinctNumbers(files) && forall i :: 0 <= i < |files| ==> files[i].meta.number == st.next + i
  {
    hide Split, MergedEntries, ManifestOf, MetaOf, LevelsOk;
    InvLevels(st);
    var batches := Split([], 0, MergedEntries(st.levels, level), OutputCap(cfg));
    SplitNonEmpty([], 0, MergedEntries(st.levels, level), OutputCap(cfg));
    var files := Compact(st, level, cfg).0.levels[level + 1];
    assert files == NewFiles(st.next, batches, cfg.filter);
    forall i | 0 <= i < |files|
      ensures files[i].meta.number == st.next + i
    {
      NewFileIs(st.next + i, batches[i], cfg.filter);
    }
  }

  lemma WritesHarmless(files: Level, st: State)
    requires Inv(st) && forall i :: 0 <= i < |files| ==> files[i].meta.number >= st.next
    ensures AllHarmless(Writes(files), ManifestOf(st))
  {
    hide Inv, LiveMetas, LiveNumbers, ManifestOf;
    LiveBelow(st);
    MetasAreLive(st);
  }

  /** The old files are none of the new state's. */
  lemma RemovalsHarmless(files: Level, st': State)
    requires Numbers(files) !! LiveNumbers(st'.levels)
    ensures AllHarmless(Removals(files), ManifestOf(st'))
  {
    hide LiveMetas, LiveNumbers, ManifestOf;
    MetasAreLive(st');
    forall i | 0 <= i < |Removals(files)|
      ensures Harmless(Removals(files)[i], ManifestOf(st'))
    {
      assert files[i].meta.number in Numbers(files);
    }
  }

  /** After the writes, saving the new manifest makes the directory hold the compacted state. */
  lemma CompactedManifest(st: State, d: Disk, level: nat, cfg: Config)
    requires Inv(st) && Holds(d, st) && level + 1 < MAX_LEVELS
    ensures var st' := Compact(st, level, cfg).0;
            |st'.levels| == MAX_LEVELS &&
            var d1 := ApplyAll(d, Writes(st'.levels[level + 1]));
            Holds(Apply(d1, SaveManifest(ManifestOf(st'))), st')
  {
    hide Inv, ManifestOf, MemReplay, Split, MergedEntries, Writes, Numbers, NewFiles, LiveMetas, LiveNumbers;
    InvLevels(st);
    NewFilesNumbered(st, level, cfg);
    var st' := Compact(st, level, cfg).0;
    var files := st'.levels[level + 1];
    WritesLand(d, files);
    var d1 := ApplyAll(d, Writes(files));
    forall l, i | 0 <= l < |st'.levels| && 0 <= i < |st'.levels[l]|
      ensures OnDisk(st'.levels[l][i], d1.files)
    {
      if l == level + 1 {
        assert AllOnDisk(files, d1.files);
      } else {
        var f := st'.levels[l][i];
        assert f == st.levels[l][i];
        assert OnDisk(f, d.files);
        LiveIsOld(st, l, i);
        NumbersFrom(files, st.next);
      }
    }
  }

  lemma LiveIsOld(st: State, l: nat, i: nat)
    requires Inv(st) && l < |st.levels| && i < |st.levels[l]|
    ensures st.levels[l][i].meta.number < st.next
  {
    hide SortedEntries, MetaOf, NoTombstone, AllEntries;
    assert FileOk(st.levels[l][i], st.next);
  }

  lemma NumbersFrom(files: Level, next: nat)
    requires forall i :: 0 <= i < |files| ==> files[i].meta.number >= next
    ensures forall n :: n in Numbers(files) ==> n >= next
  {
  }

  /** A compaction: every crash point recovers the same map, and the directory follows the new state. */
  lemma CompactSafe(st: State, d: Disk, level: nat, cfg: Config)
    requires Inv(st) && Synced(st, d)
    ensures var (st', es) := Compact(st, level, cfg);
            Synced(st', ApplyAll(d, es)) && CrashSafe(d, es, Abs(st))
  {
    hide Inv, Abs, ManifestOf, LiveNumbers, CrashSafe, Holds, Split, MergedEntries, NewFiles, Numbers, Writes,
      Removals, Apply, Harmless;
    InvLevels(st);
    if level + 1 >= MAX_LEVELS {
      CrashSafeNone(d, Abs(st));
      ApplyAllNone(d);
    } else {
      var (st', es) := Compact(st, level, cfg);
      var files, retired := st'.levels[level + 1], st.levels[level] + st.levels[level + 1];
      NewFilesNumbered(st, level, cfg);
      CompactKeepsMap(st, level, cfg);
      CompactKeepsInv(st, level, cfg);
      var w, s, r := Writes(files), [SaveManifest(ManifestOf(st'))], Removals(retired);
      WritesHarmless(files, st);
      HarmlessSafe(d, st, w);
      var d1 := ApplyAll(d, w);
      CompactedManifest(st, d, level, cfg);
      SwitchSafe(d1, st, st', s[0]);
      var d2 := Apply(d1, s[0]);
      LevelsDisjoint(st);
      LiveAfterCompact(st.levels, level, files);
      LiveBelow(st);
      OldAreLive(st, level);
      NumbersFrom(files, st.next);
      RemovalsHarmless(retired, st');
      HarmlessSafe(d2, st', r);
      CrashSafeNone(ApplyAll(d2, r), Abs(st));
      CrashSafeFour(d, w, s, r, [], Abs(st));
      ApplyAllNone(ApplyAll(d2, r));
      assert w + s + r + [] == w + s + r == es;
      CompactedFiles(d, files, s[0], retired);
    }
  }

  lemma ApplyAllNone(d: Disk)
    ensures ApplyAll(d, []) == d
  {
  }

  lemma CompactedFiles(d: Disk, files: Level, s: Effect, retired: Level)
    requires DistinctNumbers(files) && s.SaveManifest?
    ensures var d' := ApplyAll(Apply(ApplyAll(d, Writes(files)), s), Removals(retired));
            d'.files.Keys == d.files.Keys + Numbers(files) - Numbers(retired) && d'.created == d.created &&
                d'.log == d.log
  {
    hide Numbers, Writes, Removals, AllOnDisk, DistinctNumbers;
    WritesLand(d, files);
    RemovalsLand(Apply(ApplyAll(d, Writes(files)), s), retired);
  }

  lemma LevelsDisjoint(st: State)
    requires Inv(st)
    ensures forall k, l :: 0 <= k < l < |st.levels| ==> Numbers(st.levels[k]) !! Numbers(st.levels[l])
  {
    hide SortedEntries, FilesOk, NoTombstone, AllEntries, Numbers;
  }

  lemma OldAreLive(st: State, level: nat)
    requires level + 1 < |st.levels|
    ensures Numbers(st.levels[level] + st.levels[level + 1]) <= LiveNumbers(st.levels)
  {
    NumbersAppend(st.levels[level], st.levels[level + 1]);
  }

  // ---- The other critical sections ----

  lemma {:induction false} CompactAllSafe(st: State, d: Disk, cfg: Config)
    requires Inv(st) && Synced(st, d) && cfg.l0Trigger >= 1
    ensures |st.levels| == MAX_LEVELS
    ensures var (st', es) := CompactAll(st, cfg);
            Synced(st', ApplyAll(d, es)) && CrashSafe(d, es, Abs(st))
    ensures ApplyAll(d, CompactAll(st, cfg).1).log == d.log
    decreases Rank(st, cfg)
  {
    hide Inv, Abs, Synced, CrashSafe, ApplyAll, Compact, NeedsCompaction;
    InvLevels(st);
    if NeedsCompaction(st, cfg).Some? {
      var level := NeedsCompaction(st, cfg).value;
      var (st1, es1) := Compact(st, level, cfg);
      var d1 := ApplyAll(d, es1);
      NextPickDeeper(st, level, cfg);
      CompactKeepsMap(st, level, cfg);
      CompactKeepsInv(st, level, cfg);
      CompactSafe(st, d, level, cfg);
      CompactKeepsLog(st, d, level, cfg);
      CompactAllSafe(st1, d1, cfg);
      var (st2, es2) := CompactAll(st1, cfg);
      CrashSafeAppend(d, es1, es2, Abs(st));
      ApplyAllAppend(d, es1, es2);
    } else {
      CrashSafeNone(d, Abs(st));
      ApplyAllNone(d);
    }
  }

  lemma CompactKeepsLog(st: State, d: Disk, level: nat, cfg: Config)
    requires Inv(st)
    ensures |st.levels| == MAX_LEVELS && ApplyAll(d, Compact(st, level, cfg).1).log == d.log
  {
    hide Inv, Split, MergedEntries, NewFiles, Writes, Removals, ManifestOf, DistinctNumbers, Apply;
    InvLevels(st);
    if level + 1 >= MAX_LEVELS {
      ApplyAllNone(d);
    } else {
      var (st', es) := Compact(st, level, cfg);
      var w, s, r := Writes(st'.levels[level + 1]), [SaveManifest(ManifestOf(st'))],
          Removals(st.levels[level] + st.levels[level + 1]);
      NewFilesNumbered(st, level, cfg);
      ApplyAllAppend(d, w, s);
      ApplyAllOne(ApplyAll(d, w), s[0]);
      ApplyAllAppend(d, w + s, r);
      CompactedFiles(d, st'.levels[level + 1], s[0], st.levels[level] + st.levels[level + 1]);
    }
  }

  lemma FlushAndCompactSafe(st: State, d: Disk, cfg: Config)
    requires Inv(st) && Synced(st, d) && cfg.l0Trigger >= 1
    ensures |st.levels| == MAX_LEVELS
    ensures var (st', es) := FlushAndCompact(st, cfg);
            Inv(st') && Abs(st') == Abs(st) && st'.mem.table == map[] && Settled(st', cfg) &&
            Synced(st', ApplyAll(d, es)) && CrashSafe(d, es, Abs(st))
  {
    hide Inv, Abs, Synced, CrashSafe, ApplyAll, Flush, CompactAll, Contents, Settled;
    InvLevels(st);
    var (st1, es1) := Flush(st, cfg);
    var d1 := ApplyAll(d, es1);
    FlushKeepsMap(st, cfg);
    FlushKeepsInv(st, cfg);
    FlushSafe(st, d, cfg);
    InvLevels(st1);
    CompactAllKeeps(st1, cfg);
    CompactAllSafe(st1, d1, cfg);
    FlushSettles(st, cfg);
    var es2 := CompactAll(st1, cfg).1;
    CrashSafeAppend(d, es1, es2, Abs(st));
    ApplyAllAppend(d, es1, es2);
  }

  lemma MaybeFlushSafe(st: State, d: Disk, cfg: Config)
    requires Inv(st) && Synced(st, d) && cfg.l0Trigger >= 1
    ensures |st.levels| == MAX_LEVELS
    ensures var (st', es) := MaybeFlush(st, cfg);
            Inv(st') && Abs(st') == Abs(st) && Settled(st', cfg) &&
            (st.mem.approx >= cfg.flushBytes && st.mem.table != map[] ==> st'.mem == EMPTY) &&
            (st.mem.approx < cfg.flushBytes ==> st'.mem == st.mem) &&
            Synced(st', ApplyAll(d, es)) && CrashSafe(d, es, Abs(st))
  {
    hide Inv, Abs, Synced, CrashSafe, ApplyAll, FlushAndCompact, CompactAll, Settled;
    InvLevels(st);
    FlushAndCompactSafe(st, d, cfg);
    MaybeFlushReaches(st, cfg);
    CompactAllKeeps(st, cfg);
    CompactAllSafe(st, d, cfg);
  }

  /** Close: after it the memtable is empty, so the tables alone hold the user's map. */
  lemma CloseEndSafe(st: State, d: Disk, cfg: Config)
    requires Inv(st) && Synced(st, d)
    ensures |st.levels| == MAX_LEVELS
    ensures var (st', es) := CloseEnd(st, cfg);
            Inv(st') && Abs(st') == Abs(st) && Visible(LevelsMap(st'.levels)) == Abs(st) &&
            Synced(st', ApplyAll(d, es)) && CrashSafe(d, es, Abs(st)) &&
            ApplyAll(d, es).manifest == Some(ManifestOf(st'))
  {
    hide Inv, CrashSafe, ApplyAll, Flush, LevelsMap, Visible, Holds, LiveNumbers, ManifestOf, Apply;
    InvLevels(st);
    var (st1, es1) := Flush(st, cfg);
    var d1 := ApplyAll(d, es1);
    FlushKeepsMap(st, cfg);
    FlushKeepsInv(st, cfg);
    FlushSafe(st, d, cfg);
    var s := [SaveManifest(ManifestOf(st1))];
    OneSaveHarmless(ManifestOf(st1));
    HarmlessSafe(d1, st1, s);
    CrashSafeAppend(d, es1, s, Abs(st));
    ApplyAllAppend(d, es1, s);
    ApplyAllOne(d1, s[0]);
    SaveKeepsFiles(d1, ManifestOf(st1));
  }

  lemma OneSaveHarmless(m: Manifest)
    ensures AllHarmless([SaveManifest(m)], m)
  {
  }

  lemma SaveKeepsFiles(d: Disk, m: Manifest)
    ensures var d' := Apply(d, SaveManifest(m));
            d'.created == d.created && d'.log == d.log && d'.files == d.files && d'.manifest == Some(m)
  {
  }

  /** No file operation of the store removes its manifest. */
  lemma {:induction false} ManifestStays(d: Disk, es: seq<Effect>)
    ensures d.manifest.Some? ==> ApplyAll(d, es).manifest.Some?
    decreases |es|
  {
    if es != [] { ManifestStays(Apply(d, es[0]), es[1..]); }
  }

  // ---- Write ----

  lemma LoggedKeeps(st: State, b: Batch)
    requires Inv(st)
    ensures Inv(Logged(st, b)) && Abs(Logged(st, b)) == PlainApply(Abs(st), b)
  {
    hide MemApply, ApplyOps, LevelsMap, Visible, LevelsOk;
    MemApplyTable(st.mem, b);
    var base := LevelsMap(st.levels);
    ApplyIsOverlay(st.mem.table, b);
    ApplyIsOverlay(base + st.mem.table, b);
    assert base + (st.mem.table + Kv.Effect(b)) == (base + st.mem.table) + Kv.Effect(b);
    VisibleApply(base + st.mem.table, b);
  }

  /** Appending to a log with no unreadable tail: cut short it changes nothing, complete it adds the batch. */
  lemma AppendSafe(st: State, d: Disk, b: Batch)
    requires Synced(st, d) && !d.log.value.torn
    ensures Holds(Torn(d, AppendLog(b), Partly), st)
    ensures Synced(Logged(st, b), Apply(d, AppendLog(b))) && !Apply(d, AppendLog(b)).log.value.torn
  {
    hide MemReplay, FilesOnDisk, LiveNumbers, MemApply;
    MemReplaySnoc(EMPTY, Records(d), b);
    assert ManifestOf(Logged(st, b)) == ManifestOf(st);
  }

  /** Whether a write cut short at this point is nevertheless in the log. */
  predicate Landed(i: nat, q: Progress) {
    i > 0 || q == Done
  }

  /** The user's map after a write of b that finished, or that died at the given point. */
  ghost predicate WriteCrashes(st: State, d: Disk, b: Batch, es: seq<Effect>) {
    forall i: nat, q :: i < |es| ==>
      RecoversTo(CrashAt(d, es, i, q), if Landed(i, q) then PlainApply(Abs(st), b) else Abs(st))
  }

  lemma WriteSafe(st: State, d: Disk, b: Batch, cfg: Config)
    requires Inv(st) && Synced(st, d) && cfg.l0Trigger >= 1
    requires b != [] ==> !d.log.value.torn
    ensures |st.levels| == MAX_LEVELS
    ensures var (st', es) := Write(st, b, cfg);
            Inv(st') && Abs(st') == PlainApply(Abs(st), b) &&
            Synced(st', ApplyAll(d, es)) && WriteCrashes(st, d, b, es)
  {
    hide Inv, Abs, Synced, CrashSafe, ApplyAll, MaybeFlush, Logged, Holds, Apply, Settled;
    InvLevels(st);
    if b == [] {
      ApplyAllNone(d);
    } else {
      var st1 := Logged(st, b);
      var a := AppendLog(b);
      var d1 := Apply(d, a);
      SyncedHolds(st, d);
      AppendSafe(st, d, b);
      SyncedHolds(st1, d1);
      LoggedKeeps(st, b);
      InvLevels(st1);
      MaybeFlushSafe(st1, d1, cfg);
      CrashSafeNone(d1, Abs(st1));
      ApplyAllNone(d1);
      var rest := if cfg.background then [] else MaybeFlush(st1, cfg).1;
      var es := [a] + rest;
      assert cfg.background ==> es == [a];
      ApplyAllOne(d, a);
      ApplyAllAppend(d, [a], rest);
      forall i: nat, q | i < |es|
        ensures RecoversTo(CrashAt(d, es, i, q), if Landed(i, q) then PlainApply(Abs(st), b) else Abs(st))
      {
        if i == 0 {
          assert es[..0] == [];
          ApplyAllNone(d);
          TornDone(d, a);
          RecoversBy(d, st);
          RecoversBy(d1, st1);
          RecoversBy(Torn(d, a, Partly), st);
        } else {
          assert es[..i] == [a] + rest[..i - 1];
          ApplyAllAppend(d, [a], rest[..i - 1]);
          CrashSafeAt(d1, rest, Abs(st1), i - 1, q);
        }
      }
    }
  }

  lemma SyncedHolds(st: State, d: Disk)
    requires Synced(st, d)
    ensures Holds(d, st) && d.log.Some?
  {
  }

  lemma CrashSafeAt(d: Disk, es: seq<Effect>, map': Plain, i: nat, q: Progress)
    requires CrashSafe(d, es, map') && i < |es|
    ensures RecoversTo(CrashAt(d, es, i, q), map')
  {
  }

  // ---- Open ----

  lemma {:induction false} SweepHarmless(order: seq<nat>, m: Manifest)
    ensures AllHarmless(Sweep(order, LiveMetas(m)), m)
  {
    hide LiveMetas;
    if order != [] { SweepHarmless(order[1..], m); }
  }

  function Elements(order: seq<nat>): set<nat> {
    set n | n in order
  }

  lemma ElementsCons(order: seq<nat>)
    requires order != []
    ensures Elements(order) == {order[0]} + Elements(order[1..])
  {
    assert order == [order[0]] + order[1..];
  }

  lemma {:induction false} SweepLands(d: Disk, order: seq<nat>, live: set<nat>)
    ensures var d' := ApplyAll(d, Sweep(order, live));
            d' == d.(files := d'.files) && d'.files == d.files - (Elements(order) - live)
    decreases |order|
  {
    hide Elements;
    if order == [] {
      NoElements();
      assert d.files - {} == d.files;
    } else {
      var n := order[0];
      var first := if n in live then [] else [RemoveTable(n)];
      var d1 := ApplyAll(d, first);
      ApplyAllAppend(d, first, Sweep(order[1..], live));
      if n !in live { ApplyAllOne(d, RemoveTable(n)); }
      SweepLands(d1, order[1..], live);
      ElementsCons(order);
      RemoveInTwo(d.files, if n in live then {} else {n}, Elements(order[1..]) - live);
      assert Elements(order) - live == (if n in live then {} else {n}) + (Elements(order[1..]) - live);
      assert d1.files == d.files - (if n in live then {} else {n});
    }
  }

  lemma NoElements()
    ensures Elements([]) == {}
  {
  }

  lemma RemoveInTwo(files: map<nat, Content>, a: set<nat>, b: set<nat>)
    ensures (files - a) - b == files - (a + b)
  {
  }

  /**
   * Open on any directory it can recover: wherever it dies the same map is recovered again, and once done the
   * table files are exactly the live ones.
   */
  lemma OpenSafe(d: Disk, st: State, order: seq<nat>)
    requires Holds(d, st) && Inv(st)
    requires forall n :: n in d.files ==> n in order
    ensures var es := OpenEffects(d, order);
            Synced(st, ApplyAll(d, es)) && CrashSafe(d, es, Abs(st))
    ensures d.log.Some? ==> ApplyAll(d, OpenEffects(d, order)).log == d.log
    ensures !d.created ==> ApplyAll(d, OpenEffects(d, order)).manifest == Some(ManifestOf(st))
  {
    hide Inv, Abs, MemReplay, FilesOnDisk, CrashSafe, LiveMetas, LiveNumbers, Apply, Harmless, ManifestOf;
    var m := ManifestOf(st);
    var live := LiveMetas(m);
    var a := if d.created then [] else [CreateDir];
    var b := Sweep(order, live);
    var c := if d.log == None then [CreateLog] else [];
    var e := if d.created then [] else [SaveManifest(m)];
    var es := OpenEffects(d, order);
    assert es == a + b + c + e;
    SweepHarmless(order, m);
    SmallHarmless(m);
    assert AllHarmless(es, m);
    HarmlessSafe(d, st, es);
    OpenLands(d, order, live, m);
    MetasAreLive(st);
    LiveOnDisk(st, d);
  }

  lemma SmallHarmless(m: Manifest)
    ensures Harmless(CreateDir, m) && Harmless(CreateLog, m) && Harmless(SaveManifest(m), m)
  {
  }

  lemma LiveOnDisk(st: State, d: Disk)
    requires FilesOnDisk(st.levels, d.files)
    ensures LiveNumbers(st.levels) <= d.files.Keys
  {
    forall n | n in LiveNumbers(st.levels)
      ensures n in d.files
    {
      var l, i :| 0 <= l < |st.levels| && 0 <= i < |st.levels[l]| && st.levels[l][i].meta.number == n;
      assert OnDisk(st.levels[l][i], d.files);
    }
  }

  lemma OpenLands(d: Disk, order: seq<nat>, live: set<nat>, m: Manifest)
    requires ManifestOn(d) == m && live == LiveMetas(m)
    ensures var d' := ApplyAll(d, OpenEffects(d, order));
            d'.created && d'.log.Some? && (d.log.Some? ==> d'.log == d.log) &&
            (!d.created ==> d'.manifest == Some(m)) &&
            d'.files == d.files - (Elements(order) - live)
  {
    hide LiveMetas, Sweep;
    var a := if d.created then [] else [CreateDir];
    var b := Sweep(order, live);
    var c := if d.log == None then [CreateLog] else [];
    var e := if d.created then [] else [SaveManifest(m)];
    ApplyAllAppend(d, a + b + c, e);
    ApplyAllAppend(d, a + b, c);
    ApplyAllAppend(d, a, b);
    ApplyAllNone(d);
    ApplyAllOne(d, CreateDir);
    var d1 := ApplyAll(d, a);
    SweepLands(d1, order, live);
    var d2 := ApplyAll(d1, b);
    ApplyAllNone(d2);
    ApplyAllOne(d2, CreateLog);
    var d3 := ApplyAll(d2, c);
    ApplyAllNone(d3);
    ApplyAllOne(d3, SaveManifest(m));
  }

  /** A directory that does not exist yet holds the empty store. */
  lemma FreshDisk()
    ensures Holds(NO_DISK, State(EMPTY, 1, [[], [], [], [], [], []]))
    ensures Inv(State(EMPTY, 1, [[], [], [], [], [], []])) && Abs(State(EMPTY, 1, [[], [], [], [], [], []])) == map[]
  {
    var st := State(EMPTY, 1, [[], [], [], [], [], []]);
    assert forall l :: 0 <= l < MAX_LEVELS ==> st.levels[l] == [] && Metas(st.levels[l]) == [];
    assert ManifestOf(st).levels == NO_FILES;
    EmptyLevelOk(1);
    assert LevelsMap(st.levels) == map[] by { EmptyLevels(6); assert st.levels == seq(6, i => []); }
  }

  lemma {:induction false} EmptyLevels(n: nat)
    ensures LevelsMap(seq(n, i => [])) == map[]
  {
    if n > 0 {
      EmptyLevels(n - 1);
      FilesMapNone();
      var levels: seq<Level> := seq(n, i => []);
      assert levels[1..] == seq(n - 1, i => []);
      assert levels[0] == [];
    }
  }
}
