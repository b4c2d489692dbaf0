/**
 * The engine's state and its critical sections as functions (src/db.cpp). Each returns the new state and its file
 * operations.
 */
module Engine {
  import opened Bytes
  import opened Kv
  import opened MemTables
  import opened Manifests
  import SSTable

  const MIN_OUTPUT_BYTES: nat := 2 * 1024 * 1024

  datatype Config = Config(flushBytes: nat, l0Trigger: int, multiplier: int, level1Target: nat,
                           filter: SSTable.FilterParams, background: bool)

  /** A live table: its manifest entry, the entries its reader serves, and the filter parameters it was written with. */
  datatype File = File(meta: FileMeta, entries: seq<Entry>, params: SSTable.FilterParams)

  type Level = seq<File>

  datatype State = State(mem: Mem, next: nat, levels: seq<Level>)

  /** What a critical section does to the directory, one file operation at a time. */
  datatype Effect =
    | CreateDir
    | WriteTable(number: nat, entries: seq<Entry>, params: SSTable.FilterParams)
    | SaveManifest(manifest: Manifest)
    | RemoveTable(number: nat)
    | AppendLog(batch: Batch)
    | RemoveLog
    | CreateLog

  type Outcome = (State, seq<Effect>)

  // ---- Metadata ----

  function MetaOf(number: nat, es: seq<Entry>, p: SSTable.FilterParams): FileMeta
    requires es != []
  {
    FileMeta(number, es[0].key, es[|es| - 1].key, |SSTable.EncodeTable(es, p)|)
  }

  function NewFile(number: nat, es: seq<Entry>, p: SSTable.FilterParams): File
    requires es != []
  {
    File(MetaOf(number, es, p), es, p)
  }

  function Metas(files: Level): (ms: seq<FileMeta>)
    ensures |ms| == |files|
  {
    seq(|files|, i requires 0 <= i < |files| => files[i].meta)
  }

  function ManifestOf(st: State): Manifest {
    Manifest(st.next, seq(|st.levels|, l requires 0 <= l < |st.levels| => Metas(st.levels[l])))
  }

  // ---- Order by file number ----

  function InsertByNumber(f: File, files: Level): (r: Level)
    ensures |r| == |files| + 1
  {
    if files == [] || f.meta.number <= files[0].meta.number then [f] + files
    else [files[0]] + InsertByNumber(f, files[1..])
  }

  /** std::sort by ascending file number. */
  function OldestFirst(files: Level): (r: Level)
    ensures |r| == |files|
  {
    if files == [] then [] else InsertByNumber(files[0], OldestFirst(files[1..]))
  }

  function Reverse(files: Level): (r: Level)
    ensures |r| == |files|
  {
    if files == [] then [] else Reverse(files[1..]) + [files[0]]
  }

  // ---- Flush ----

  function Flush(st: State, cfg: Config): (r: Outcome)
    requires |st.levels| == MAX_LEVELS
    ensures |r.0.levels| == MAX_LEVELS
  {
    if st.mem.table == map[] then (st, [])
    else
      var es := Entries(st.mem.table);
      EntriesNonEmpty(st.mem.table);
      var f := NewFile(st.next, es, cfg.filter);
      var st' := State(EMPTY, st.next + 1, st.levels[0 := st.levels[0] + [f]]);
      (st', [WriteTable(st.next, es, cfg.filter), SaveManifest(ManifestOf(st')), RemoveLog, CreateLog])
  }

  lemma EntriesNonEmpty(m: Kv.Table)
    requires m != map[]
    ensures Entries(m) != []
  {
    TableOfEntries(m);
  }

  // ---- Compaction ----

  function SumSizes(files: Level): nat {
    if files == [] then 0 else (files[0].meta.fileSize + SumSizes(files[1..])) % TWO_64
  }

  function Factor(cfg: Config): nat {
    if cfg.multiplier > 1 then cfg.multiplier else 1
  }

  /** The first level from lvl to the last but one whose bytes exceed its target. */
  function PickLevel(levels: seq<Level>, lvl: nat, target: nat, cfg: Config): (r: Option<nat>)
    requires |levels| == MAX_LEVELS
    ensures r.Some? ==> lvl <= r.value < MAX_LEVELS - 1
    decreases MAX_LEVELS - lvl
  {
    if lvl >= MAX_LEVELS - 1 then None
    else if SumSizes(levels[lvl]) > target then Some(lvl)
    else PickLevel(levels, lvl + 1, target * Factor(cfg) % TWO_64, cfg)
  }

  function NeedsCompaction(st: State, cfg: Config): (r: Option<nat>)
    requires |st.levels| == MAX_LEVELS
    ensures r.Some? ==> r.value < MAX_LEVELS - 1
  {
    if |st.levels[0]| >= cfg.l0Trigger then Some(0)
    else PickLevel(st.levels, 1, cfg.level1Target % TWO_64, cfg)
  }

  /** All entries of the files in order; a later one overrides an earlier one with its key. */
  function AllEntries(files: Level): seq<Entry> {
    if files == [] then [] else files[0].entries + AllEntries(files[1..])
  }

  function FilesMap(files: Level): Kv.Table {
    TableOf(AllEntries(files))
  }

  function DropTombstones(es: seq<Entry>): seq<Entry> {
    if es == [] then []
    else if es[0].val.Tombstone? then DropTombstones(es[1..])
    else [es[0]] + DropTombstones(es[1..])
  }

  function EntryBytes(e: Entry): nat {
    |e.key| + if e.val.Live? then |e.val.value| else 0
  }

  /** The output files' entry lists: a file is closed as soon as it has reached the cap. */
  function Split(batch: seq<Entry>, bytes: nat, es: seq<Entry>, cap: nat): seq<seq<Entry>>
    decreases |es|
  {
    if es == [] then (if batch == [] then [] else [batch])
    else
      var batch', bytes' := batch + [es[0]], bytes + EntryBytes(es[0]);
      if bytes' >= cap then [batch'] + Split([], 0, es[1..], cap) else Split(batch', bytes', es[1..], cap)
  }

  function OutputCap(cfg: Config): nat {
    if cfg.flushBytes > MIN_OUTPUT_BYTES then cfg.flushBytes else MIN_OUTPUT_BYTES
  }

  /** The merged entries that a compaction of `level` into the next one writes. */
  function MergedEntries(levels: seq<Level>, level: nat): seq<Entry>
    requires |levels| == MAX_LEVELS && level + 1 < MAX_LEVELS
  {
    var newer := if level == 0 then OldestFirst(levels[0]) else Reverse(levels[level]);
    var merged := Entries(FilesMap(levels[level + 1] + newer));
    if level + 1 == MAX_LEVELS - 1 then DropTombstones(merged) else merged
  }

  function NewFiles(number: nat, batches: seq<seq<Entry>>, p: SSTable.FilterParams): (fs: Level)
    requires forall i :: 0 <= i < |batches| ==> batches[i] != []
    ensures |fs| == |batches|
  {
    seq(|batches|, i requires 0 <= i < |batches| => NewFile(number + i, batches[i], p))
  }

  function Writes(files: Level): (r: seq<Effect>)
    ensures |r| == |files|
  {
    seq(|files|, i requires 0 <= i < |files| => WriteTable(files[i].meta.number, files[i].entries, files[i].params))
  }

  function Removals(files: Level): (r: seq<Effect>)
    ensures |r| == |files|
  {
    seq(|files|, i requires 0 <= i < |files| => RemoveTable(files[i].meta.number))
  }

  function Compact(st: State, level: nat, cfg: Config): (r: Outcome)
    requires |st.levels| == MAX_LEVELS
    ensures |r.0.levels| == MAX_LEVELS
  {
    if level + 1 >= MAX_LEVELS then (st, [])
    else
      var batches := Split([], 0, MergedEntries(st.levels, level), OutputCap(cfg));
      SplitNonEmpty([], 0, MergedEntries(st.levels, level), OutputCap(cfg));
      var files := NewFiles(st.next, batches, cfg.filter);
      var st' := State(st.mem, st.next + |files|, st.levels[level := []][level + 1 := files]);
      (st', Writes(files) + [SaveManifest(ManifestOf(st'))] + Removals(st.levels[level] + st.levels[level + 1]))
  }

  lemma {:induction false} SplitNonEmpty(batch: seq<Entry>, bytes: nat, es: seq<Entry>, cap: nat)
    ensures forall i :: 0 <= i < |Split(batch, bytes, es, cap)| ==> Split(batch, bytes, es, cap)[i] != []
    decreases |es|
  {
    if es != [] {
      var batch', bytes' := batch + [es[0]], bytes + EntryBytes(es[0]);
      SplitNonEmpty([], 0, es[1..], cap);
      SplitNonEmpty(batch', bytes', es[1..], cap);
    }
  }

  // ---- The compaction loop ----

  lemma EmptiedLevelNotPicked(levels: seq<Level>, levels': seq<Level>, level: nat, lvl: nat, target: nat, cfg: Config)
    requires |levels| == MAX_LEVELS == |levels'|
    requires level < MAX_LEVELS - 1 && levels'[level] == []
    requires forall l :: 0 <= l < level ==> levels'[l] == levels[l]
    requires PickLevel(levels, lvl, target, cfg) == Some(level)
    ensures PickLevel(levels', lvl, target, cfg).Some? ==> PickLevel(levels', lvl, target, cfg).value > level
    decreases MAX_LEVELS - lvl
  {
    if lvl < level {
      EmptiedLevelNotPicked(levels, levels', level, lvl + 1, target * Factor(cfg) % TWO_64, cfg);
    }
  }

  /** With a positive trigger, the level picked after a compaction lies strictly deeper. */
  lemma NextPickDeeper(st: State, level: nat, cfg: Config)
    requires |st.levels| == MAX_LEVELS && cfg.l0Trigger >= 1
    requires NeedsCompaction(st, cfg) == Some(level)
    ensures var st' := Compact(st, level, cfg).0;
            |st'.levels| == MAX_LEVELS &&
            (NeedsCompaction(st', cfg).Some? ==> NeedsCompaction(st', cfg).value > level)
  {
    hide Split, MergedEntries, NewFiles, ManifestOf, SumSizes, Factor;
    var st' := Compact(st, level, cfg).0;
    if level > 0 {
      EmptiedLevelNotPicked(st.levels, st'.levels, level, 1, cfg.level1Target % TWO_64, cfg);
    }
  }

  function Rank(st: State, cfg: Config): nat
    requires |st.levels| == MAX_LEVELS
  {
    match NeedsCompaction(st, cfg) case None => 0 case Some(level) => MAX_LEVELS - 1 - level
  }

  /** while (NeedsCompactionLocked(&level)) CompactLocked(level); */
  function CompactAll(st: State, cfg: Config): (r: Outcome)
    requires |st.levels| == MAX_LEVELS && cfg.l0Trigger >= 1
    ensures |r.0.levels| == MAX_LEVELS
    decreases Rank(st, cfg)
  {
    match NeedsCompaction(st, cfg)
    case None => (st, [])
    case Some(level) =>
      NextPickDeeper(st, level, cfg);
      var (st1, effects1) := Compact(st, level, cfg);
      var (st2, effects2) := CompactAll(st1, cfg);
      (st2, effects1 + effects2)
  }

  /** The state after n rounds of the loop, however the trigger is set. */
  function Rounds(st: State, n: nat, cfg: Config): (r: State)
    requires |st.levels| == MAX_LEVELS
    ensures |r.levels| == MAX_LEVELS
    decreases n
  {
    if n == 0 then st
    else match NeedsCompaction(st, cfg) case None => st
        case Some(level) => Rounds(Compact(st, level, cfg).0, n - 1, cfg)
  }

  // ---- The other critical sections ----

  /** Flush, then compact until nothing needs it: DB::Flush and one background iteration. */
  function FlushAndCompact(st: State, cfg: Config): (r: Outcome)
    requires |st.levels| == MAX_LEVELS && cfg.l0Trigger >= 1
    ensures |r.0.levels| == MAX_LEVELS
  {
    var (st1, effects1) := Flush(st, cfg);
    var (st2, effects2) := CompactAll(st1, cfg);
    (st2, effects1 + effects2)
  }

  /** MaybeFlushLocked: only a large enough memtable is flushed. */
  function MaybeFlush(st: State, cfg: Config): (r: Outcome)
    requires |st.levels| == MAX_LEVELS && cfg.l0Trigger >= 1
    ensures |r.0.levels| == MAX_LEVELS
  {
    if st.mem.approx >= cfg.flushBytes then FlushAndCompact(st, cfg) else CompactAll(st, cfg)
  }

  function Logged(st: State, b: Batch): State {
    st.(mem := MemApply(st.mem, b))
  }

  function Write(st: State, b: Batch, cfg: Config): (r: Outcome)
    requires |st.levels| == MAX_LEVELS && cfg.l0Trigger >= 1
    ensures |r.0.levels| == MAX_LEVELS
  {
    if b == [] then (st, [])
    else
      var st1 := Logged(st, b);
      if cfg.background then (st1, [AppendLog(b)])
      else
        var (st2, effects) := MaybeFlush(st1, cfg);
        (st2, [AppendLog(b)] + effects)
  }

  /** The second half of Close, after the background thread has been joined. */
  function CloseEnd(st: State, cfg: Config): (r: Outcome)
    requires |st.levels| == MAX_LEVELS
    ensures |r.0.levels| == MAX_LEVELS
  {
    var (st1, effects) := Flush(st, cfg);
    (st1, effects + [SaveManifest(ManifestOf(st1))])
  }

  // ---- Reads ----

  /** The first file, in the order given, that has the key. */
  function SearchFiles(files: Level, key: Bytes): Option<Val> {
    if files == [] then None
    else match Lookup(files[0].entries, key) case Some(v) => Some(v) case None => SearchFiles(files[1..], key)
  }

  predicate InRange(m: FileMeta, key: Bytes) {
    !Less(key, m.minKey) && !Less(m.maxKey, key)
  }

  /** The first file whose recorded range covers the key and that has it. */
  function SearchRanges(files: Level, key: Bytes): Option<Val> {
    if files == [] then None
    else if !InRange(files[0].meta, key) then SearchRanges(files[1..], key)
    else match Lookup(files[0].entries, key) case Some(v) => Some(v) case None => SearchRanges(files[1..], key)
  }

  function SearchLevels(levels: seq<Level>, key: Bytes): Option<Val> {
    if levels == [] then None
    else match SearchRanges(levels[0], key) case Some(v) => Some(v) case None => SearchLevels(levels[1..], key)
  }

  /** Memtable, then L0 newest file first, then the deeper levels; stops at the first hit. */
  function Search(st: State, key: Bytes): Option<Val>
    requires |st.levels| == MAX_LEVELS
  {
    if key in st.mem.table then Some(st.mem.table[key])
    else
      match SearchFiles(Reverse(OldestFirst(st.levels[0])), key)
      case Some(v) => Some(v)
      case None => SearchLevels(st.levels[1..], key)
  }

  /** DB::Get: the value, or None where it answers NotFound. */
  function Get(st: State, key: Bytes): Option<Bytes>
    requires |st.levels| == MAX_LEVELS
  {
    match Search(st, key) case Some(Live(v)) => Some(v) case _ => None
  }

  /** apply_entries: a tombstone erases, a value overwrites. */
  function ApplyEntries(snapshot: Plain, es: seq<Entry>): Plain
    decreases |es|
  {
    if es == [] then snapshot
    else
      match es[0].val
      case Live(v) => ApplyEntries(snapshot[es[0].key := v], es[1..])
      case Tombstone => ApplyEntries(snapshot - {es[0].key}, es[1..])
  }

  function ApplyLevels(levels: seq<Level>): Plain {
    if levels == [] then map[] else ApplyEntries(ApplyLevels(levels[1..]), AllEntries(levels[0]))
  }

  /** DB::NewIterator: everything from the deepest level up, oldest first, overwriting and erasing. */
  function Snapshot(st: State): Plain
    requires |st.levels| == MAX_LEVELS
  {
    var deep := ApplyLevels(st.levels[1..]);
    var l0 := ApplyEntries(deep, AllEntries(OldestFirst(st.levels[0])));
    ApplyEntries(l0, Entries(st.mem.table))
  }

  // ---- Meaning and invariant ----

  function LevelsMap(levels: seq<Level>): Kv.Table {
    if levels == [] then map[] else LevelsMap(levels[1..]) + FilesMap(levels[0])
  }

  function Contents(st: State): Kv.Table {
    LevelsMap(st.levels) + st.mem.table
  }

  /** The map a user of the store sees. */
  function Abs(st: State): Plain {
    Visible(Contents(st))
  }

  ghost predicate FileOk(f: File, next: nat) {
    f.entries != [] && SortedEntries(f.entries) && f.meta == MetaOf(f.meta.number, f.entries, f.params) &&
        f.meta.number < next
  }

  ghost predicate FilesOk(files: Level, next: nat) {
    forall i :: 0 <= i < |files| ==> FileOk(files[i], next)
  }

  ghost predicate Ascending(files: Level) {
    forall i, j :: 0 <= i < j < |files| ==> files[i].meta.number < files[j].meta.number
  }

  function Numbers(files: Level): set<nat> {
    set i | 0 <= i < |files| :: files[i].meta.number
  }

  function LiveNumbers(levels: seq<Level>): set<nat> {
    set l, i | 0 <= l < |levels| && 0 <= i < |levels[l]| :: levels[l][i].meta.number
  }

  ghost predicate NoTombstone(es: seq<Entry>) {
    forall i :: 0 <= i < |es| ==> es[i].val.Live?
  }

  ghost predicate LevelsOk(levels: seq<Level>, next: nat) {
    && |levels| == MAX_LEVELS
    && (forall l :: 0 <= l < MAX_LEVELS ==> FilesOk(levels[l], next))
    && Ascending(levels[0])
    && (forall l :: 1 <= l < MAX_LEVELS ==> SortedEntries(AllEntries(levels[l])))
    && NoTombstone(AllEntries(levels[MAX_LEVELS - 1]))
    && (forall k, l :: 0 <= k < l < MAX_LEVELS ==> Numbers(levels[k]) !! Numbers(levels[l]))
  }

  ghost predicate Inv(st: State) {
    LevelsOk(st.levels, st.next) && st.next >= 1
  }
}
