/** The same directory as bytes: what each file operation writes, what a crash leaves, and what Open parses. */
module ByteDisk {
  import opened Bytes
  import opened Kv
  import opened MemTables
  import opened WriteBatches
  import opened Manifests
  import opened Engine
  import opened Recovery
  import opened Runs
  import Coding
  import SSTable
  import Wal

  datatype RawDisk = RawDisk(created: bool, manifest: Option<Bytes>, files: map<nat, Bytes>, log: Option<Bytes>)

  const NO_RAW_DISK: RawDisk := RawDisk(false, None, map[], None)

  // ---- File operations on bytes ----

  function LogBytes(r: RawDisk): Bytes {
    match r.log case None => [] case Some(l) => l
  }

  function RawApply(r: RawDisk, e: Effect): RawDisk {
    match e
    case CreateDir => r.(created := true)
    case WriteTable(n, es, p) => r.(files := r.files[n := SSTable.EncodeTable(es, p)])
    case SaveManifest(m) => r.(manifest := Some(Manifests.Encode(m)))
    case RemoveTable(n) => r.(files := r.files - {n})
    case AppendLog(b) => r.(log := Some(LogBytes(r) + Wal.Frame(EncodeOps(b))))
    case RemoveLog => r.(log := None)
    case CreateLog => r.(log := Some(LogBytes(r)))
  }

  function RawApplyAll(r: RawDisk, es: seq<Effect>): RawDisk
    decreases |es|
  {
    if es == [] then r else RawApplyAll(RawApply(r, es[0]), es[1..])
  }

  /** How much of a file operation reached the directory. */
  datatype RawProgress = NotBegun | FirstBytes(k: nat) | Complete

  function Prefix(s: Bytes, k: nat): Bytes {
    if k < |s| then s[..k] else s
  }

  /** Appends and table writes may leave any prefix of their bytes; the other operations are atomic. */
  function RawTorn(r: RawDisk, e: Effect, q: RawProgress): RawDisk {
    match q
    case NotBegun => r
    case Complete => RawApply(r, e)
    case FirstBytes(k) =>
      match e
      case WriteTable(n, es, p) => r.(files := r.files[n := Prefix(SSTable.EncodeTable(es, p), k)])
      case AppendLog(b) => r.(log := Some(LogBytes(r) + Prefix(Wal.Frame(EncodeOps(b)), k)))
      case _ => r
  }

  // ---- What Open parses ----

  datatype RawFile = RawFile(meta: FileMeta, table: SSTable.Opened)

  datatype RawState = RawState(mem: Mem, next: nat, levels: seq<seq<RawFile>>)

  function RawManifest(r: RawDisk): Option<Manifest> {
    match r.manifest case None => Some(INITIAL) case Some(bytes) => Manifests.Decode(bytes)
  }

  function OpenFiles(ms: seq<FileMeta>, files: map<nat, Bytes>): Option<seq<RawFile>> {
    if ms == [] then Some([])
    else if ms[0].number !in files then None
    else
      match SSTable.Open(files[ms[0].number])
      case None => None
      case Some(table) =>
        match OpenFiles(ms[1..], files)
        case None => None
        case Some(rest) => Some([RawFile(ms[0], table)] + rest)
  }

  function OpenLevels(levels: seq<seq<FileMeta>>, files: map<nat, Bytes>): Option<seq<seq<RawFile>>> {
    if levels == [] then Some([])
    else
      match OpenFiles(levels[0], files)
      case None => None
      case Some(level) =>
        match OpenLevels(levels[1..], files)
        case None => None
        case Some(rest) => Some([level] + rest)
  }

  /** Replays log records into a memtable; whatever each delivers before a malformed operation counts. */
  function ReplayInto(m: Mem, records: seq<Bytes>): Mem
    decreases |records|
  {
    if records == [] then m else ReplayInto(MemApply(m, DecodeOps(records[0]).0), records[1..])
  }

  /** DB::Open on the bytes: None where it reports an error. */
  function RawOpen(r: RawDisk): Option<RawState> {
    match RawManifest(r)
    case None => None
    case Some(m) =>
      match OpenLevels(m.levels, r.files)
      case None => None
      case Some(levels) => Some(RawState(ReplayInto(EMPTY, Wal.Replay(LogBytes(r)).0), m.next, levels))
  }

  // ---- The bytes represent the directory ----

  ghost predicate BatchEncodable(b: Batch) {
    BatchFits(b) && Wal.Fits(EncodeOps(b))
  }

  /** Every length, size and number that an operation writes is inside its machine width. */
  ghost predicate EffectFits(e: Effect) {
    match e
    case WriteTable(_, es, p) => SSTable.TableFits(es, p)
    case SaveManifest(m) => ManifestFits(m)
    case AppendLog(b) => BatchEncodable(b)
    case _ => true
  }

  ghost predicate EffectsFit(es: seq<Effect>) {
    forall i :: 0 <= i < |es| ==> EffectFits(es[i])
  }

  function EncodeAll(batches: seq<Batch>): (r: seq<Bytes>)
    ensures |r| == |batches|
  {
    seq(|batches|, i requires 0 <= i < |batches| => EncodeOps(batches[i]))
  }

  ghost predicate RepFile(bytes: Bytes, c: Content) {
    c.Whole? ==> SSTable.TableFits(c.entries, c.params) && bytes == SSTable.EncodeTable(c.entries, c.params)
  }

  ghost predicate RepLog(bytes: Bytes, l: Log) {
    (forall i :: 0 <= i < |l.records| ==> BatchEncodable(l.records[i])) &&
    Wal.Replay(bytes).0 == EncodeAll(l.records) &&
    (Wal.Replay(bytes).1 == [] <==> !l.torn)
  }

  ghost predicate Rep(r: RawDisk, d: Disk) {
    && r.created == d.created
    && (r.manifest.Some? <==> d.manifest.Some?)
    && (d.manifest.Some? ==> ManifestFits(d.manifest.value) && r.manifest.value == Manifests.Encode(d.manifest.value))
    && r.files.Keys == d.files.Keys
    && (forall n :: n in d.files ==> RepFile(r.files[n], d.files[n]))
    && (r.log.Some? <==> d.log.Some?)
    && (d.log.Some? ==> RepLog(r.log.value, d.log.value))
  }

  // ---- Every file operation, whole or cut short at any byte ----

  /** What a cut at this byte amounts to in the abstract directory. */
  function AbsProgress(e: Effect, q: RawProgress): Progress {
    match q
    case NotBegun => NotStarted
    case Complete => Done
    case FirstBytes(k) =>
      match e
      case WriteTable(_, es, p) => if k < |SSTable.EncodeTable(es, p)| then Partly else Done
      case AppendLog(b) =>
        if k == 0 then NotStarted else if k < |Wal.Frame(EncodeOps(b))| then Partly else Done
      case _ => NotStarted
  }

  lemma AppendWhole(bytes: Bytes, l: Log, b: Batch)
    requires RepLog(bytes, l) && !l.torn && BatchEncodable(b)
    ensures RepLog(bytes + Wal.Frame(EncodeOps(b)), Log(l.records + [b], false))
  {
    hide Wal.Replay, Wal.Frame, BatchEncodable, EncodeOps;
    BatchBytesFit(b);
    Wal.AppendToClean(bytes, EncodeOps(b));
    assert EncodeAll(l.records + [b]) == EncodeAll(l.records) + [EncodeOps(b)];
  }

  lemma BatchBytesFit(b: Batch)
    requires BatchEncodable(b)
    ensures Wal.Fits(EncodeOps(b))
  {
  }

  lemma AppendPart(bytes: Bytes, l: Log, b: Batch, k: nat)
    requires RepLog(bytes, l) && !l.torn && BatchEncodable(b) && 0 < k < |Wal.Frame(EncodeOps(b))|
    ensures RepLog(bytes + Wal.Frame(EncodeOps(b))[..k], Log(l.records, true))
  {
    hide Wal.Replay, Wal.Frame, Wal.Frames, Wal.DecodeFrame, BatchEncodable, EncodeOps;
    BatchBytesFit(b);
    var records := EncodeAll(l.records);
    var part := Wal.Frame(EncodeOps(b))[..k];
    Wal.ReplaySplits(bytes);
    assert bytes == Wal.Frames(records);
    Wal.TornFrame(EncodeOps(b), k);
    Wal.ReplayUnique(bytes + part, records, part);
  }

  /**
   * When a write is safe: every batch that may be appended to these log bytes will be replayed behind what is
   * there now if and only if replay leaves none of them unread. Open does not truncate the log.
   */
  lemma WritesSurviveIffClean(bytes: Bytes)
    ensures (forall b :: b != [] && BatchEncodable(b) ==>
               Wal.Replay(bytes + Wal.Frame(EncodeOps(b))).0 == Wal.Replay(bytes).0 + [EncodeOps(b)])
            <==> Wal.Replay(bytes).1 == []
  {
    hide Wal.Replay, Wal.Frame, BatchEncodable, EncodeOps;
    if Wal.Replay(bytes).1 == [] {
      forall b | b != [] && BatchEncodable(b)
        ensures Wal.Replay(bytes + Wal.Frame(EncodeOps(b))).0 == Wal.Replay(bytes).0 + [EncodeOps(b)]
      {
        BatchBytesFit(b);
        Wal.AppendToClean(bytes, EncodeOps(b));
      }
    } else {
      var a, b: Batch := [Put([0], [0])], [Delete([0, 0, 0])];
      TwoWitnesses();
      Wal.AppendBehindTail(bytes, EncodeOps(a), EncodeOps(b));
      assert a != [] && BatchEncodable(a) && b != [] && BatchEncodable(b);
    }
  }

  /**
   * How an acknowledged write gets lost: a crash leaves the header and perhaps more of one record, and the next
   * record is shorter than what is missing. The old header then announces the new record as its own payload, and
   * Open finds the store as if neither batch had been written.
   */
  lemma ShortWriteLost(r: RawDisk, torn: Batch, b: Batch, k: nat)
    requires r.log.Some? && Wal.Replay(r.log.value).1 == [] && BatchEncodable(torn)
    requires Wal.HEADER <= k && k + |Wal.Frame(EncodeOps(b))| < |Wal.Frame(EncodeOps(torn))|
    ensures var left := r.log.value + Wal.Frame(EncodeOps(torn))[..k];
            RawOpen(r.(log := Some(left + Wal.Frame(EncodeOps(b))))) == RawOpen(r.(log := Some(left))) == RawOpen(r)
  {
    hide Wal.Replay, Wal.Frame, Wal.Frames, Wal.DecodeFrame, BatchEncodable, EncodeOps, OpenLevels, ReplayInto,
      Manifests.Decode;
    var log, payload, part := r.log.value, EncodeOps(torn), Wal.Frame(EncodeOps(torn))[..k];
    BatchBytesFit(torn);
    Wal.ReplaySplits(log);
    Wal.TornFrame(payload, k);
    Wal.ReplayUnique(log + part, Wal.Replay(log).0, part);
    Wal.AnnouncedLength(payload, k);
    Wal.HeaderSwallows(log + part, EncodeOps(b));
  }

  /** Two records of the same length for which no unread tail can be the beginning of both. */
  lemma TwoWitnesses()
    ensures EncodeOps([Put([0], [0])]) == [1, 1, 0, 1, 0] && BatchEncodable([Put([0], [0])])
    ensures EncodeOps([Delete([0, 0, 0])]) == [2, 3, 0, 0, 0] && BatchEncodable([Delete([0, 0, 0])])
    ensures Wal.LengthAbsent([1, 1, 0, 1, 0])
  {
    hide Coding.LengthPrefixed;
    var put, delete := Put([0], [0]), Delete([0, 0, 0]);
    ShortLengths();
    assert [put][1..] == [] && [delete][1..] == [];
    assert EncodeOps([put]) == EncodeOp(put) + EncodeOps([]) == EncodeOp(put);
    assert EncodeOps([delete]) == EncodeOp(delete) + EncodeOps([]) == EncodeOp(delete);
  }

  lemma ShortLengths()
    ensures Coding.LengthPrefixed([0]) == [1, 0] && Coding.LengthPrefixed([0, 0, 0]) == [3, 0, 0, 0]
  {
    assert CountTo(2) == CountTo(1) + 1 && CountTo(1) == CountTo(0) + 1;
    assert ByteOf(1) == 1 && ByteOf(3) == 3;
    Wal.ShortWord(1);
    Wal.ShortWord(3);
    assert Coding.Varint32(Pack32(1, 0, 0, 0)) == [1];
    assert Coding.Varint32(Pack32(3, 0, 0, 0)) == [3];
  }

  lemma EmptyLog()
    ensures RepLog([], Log([], false))
  {
    Wal.TornNothing();
  }

  lemma RepStep(r: RawDisk, d: Disk, e: Effect, q: RawProgress)
    requires Rep(r, d) && EffectFits(e)
    requires e.AppendLog? ==> d.log.Some? && !d.log.value.torn
    ensures Rep(RawTorn(r, e, q), Torn(d, e, AbsProgress(e, q)))
  {
    hide RepLog, SSTable.TableFits, SSTable.EncodeTable, ManifestFits, Manifests.Encode, Wal.Frame, BatchEncodable,
      EncodeOps;
    match e
    case AppendLog(b) =>
      var bytes, l := r.log.value, d.log.value;
      var frame := Wal.Frame(EncodeOps(b));
      AppendWhole(bytes, l, b);
      if q.FirstBytes? {
        if q.k == 0 {
          assert bytes + Prefix(frame, q.k) == bytes || |frame| == 0;
          FrameNotEmpty(EncodeOps(b));
        } else if q.k < |frame| {
          AppendPart(bytes, l, b, q.k);
        }
      }
    case CreateLog => EmptyLog();
    case _ =>
  }

  lemma FrameNotEmpty(payload: Bytes)
    ensures |Wal.Frame(payload)| > 0
  {
    Wal.FrameShape(payload);
  }

  lemma RepWhole(r: RawDisk, d: Disk, e: Effect)
    requires Rep(r, d) && EffectFits(e)
    requires e.AppendLog? ==> d.log.Some? && !d.log.value.torn
    ensures Rep(RawApply(r, e), Apply(d, e))
  {
    hide Rep, RawApply, Apply, EffectFits;
    RepStep(r, d, e, Complete);
    TornDone(d, e);
    RawComplete(r, e);
  }

  lemma RawComplete(r: RawDisk, e: Effect)
    ensures RawTorn(r, e, Complete) == RawApply(r, e)
  {
    hide RawApply;
  }

  /** No operation of the sequence appends behind an unreadable tail, or to a log that is not there. */
  ghost predicate AppendsClean(d: Disk, es: seq<Effect>)
    decreases |es|
  {
    es == [] ||
    ((es[0].AppendLog? ==> d.log.Some? && !d.log.value.torn) && AppendsClean(Apply(d, es[0]), es[1..]))
  }

  lemma {:induction false} RepRun(r: RawDisk, d: Disk, es: seq<Effect>)
    requires Rep(r, d) && EffectsFit(es) && AppendsClean(d, es)
    ensures Rep(RawApplyAll(r, es), ApplyAll(d, es))
    decreases |es|
  {
    hide Rep, EffectFits, RawApply, Apply;
    if es != [] {
      assert EffectFits(es[0]);
      RepWhole(r, d, es[0]);
      assert forall i :: 0 <= i < |es[1..]| ==> es[1..][i] == es[i + 1];
      RepRun(RawApply(r, es[0]), Apply(d, es[0]), es[1..]);
    }
  }

  function RawCrashAt(r: RawDisk, es: seq<Effect>, i: nat, q: RawProgress): RawDisk
    requires i < |es|
  {
    RawTorn(RawApplyAll(r, es[..i]), es[i], q)
  }

  lemma {:induction false} AppendsCleanAt(d: Disk, es: seq<Effect>, i: nat)
    requires AppendsClean(d, es) && i < |es|
    ensures AppendsClean(d, es[..i])
    ensures es[i].AppendLog? ==> ApplyAll(d, es[..i]).log.Some? && !ApplyAll(d, es[..i]).log.value.torn
    decreases |es|
  {
    hide Apply;
    if i > 0 {
      AppendsCleanAt(Apply(d, es[0]), es[1..], i - 1);
      assert es[..i][1..] == es[1..][..i - 1];
    } else {
      assert es[..0] == [];
    }
  }

  /** A crash at any byte of any operation leaves bytes that represent a crash of the abstract directory. */
  lemma RepCrash(r: RawDisk, d: Disk, es: seq<Effect>, i: nat, q: RawProgress)
    requires Rep(r, d) && EffectsFit(es) && AppendsClean(d, es) && i < |es|
    ensures Rep(RawCrashAt(r, es, i, q), CrashAt(d, es, i, AbsProgress(es[i], q)))
  {
    hide Rep, EffectFits, RawTorn, Torn, AbsProgress, RawApplyAll, ApplyAll, AppendsClean;
    AppendsCleanAt(d, es, i);
    assert EffectsFit(es[..i]) by {
      assert forall j :: 0 <= j < i ==> es[..i][j] == es[j];
    }
    RepRun(r, d, es[..i]);
    assert EffectFits(es[i]);
    RepStep(RawApplyAll(r, es[..i]), ApplyAll(d, es[..i]), es[i], q);
  }

  // ---- Open on bytes is Open on what they represent ----

  function OpenedOf(es: seq<Entry>, p: SSTable.FilterParams): SSTable.Opened {
    SSTable.Opened(SSTable.IndexOf(es, 0), SSTable.FilterOf(es, p), SSTable.EncodeTable(es, p))
  }

  function RawOf(f: File): RawFile {
    RawFile(f.meta, OpenedOf(f.entries, f.params))
  }

  function RawLevel(files: Level): (r: seq<RawFile>)
    ensures |r| == |files|
  {
    seq(|files|, i requires 0 <= i < |files| => RawOf(files[i]))
  }

  function RawLevels(levels: seq<Level>): (r: seq<seq<RawFile>>)
    ensures |r| == |levels|
  {
    seq(|levels|, l requires 0 <= l < |levels| => RawLevel(levels[l]))
  }

  /** The running state with the readers an open leaves in place of the entry lists. */
  function RawOfState(st: State): RawState {
    RawState(st.mem, st.next, RawLevels(st.levels))
  }

  ghost predicate FilesRep(raw: map<nat, Bytes>, files: map<nat, Content>) {
    raw.Keys == files.Keys && forall n :: n in files ==> RepFile(raw[n], files[n])
  }

  lemma {:induction false} OpenFilesAgrees(ms: seq<FileMeta>, raw: map<nat, Bytes>, files: map<nat, Content>)
    requires FilesRep(raw, files) && LoadFiles(ms, files).Some?
    ensures OpenFiles(ms, raw) == Some(RawLevel(LoadFiles(ms, files).value))
    decreases |ms|
  {
    hide SSTable.Open, SSTable.IndexOf, SSTable.FilterOf, SSTable.EncodeTable, SSTable.TableFits;
    if ms != [] {
      var c := files[ms[0].number];
      var f := File(ms[0], c.entries, c.params);
      assert RepFile(raw[ms[0].number], files[ms[0].number]);
      SSTable.OpenWritten(c.entries, c.params);
      OpenFilesAgrees(ms[1..], raw, files);
      var rest := LoadFiles(ms[1..], files).value;
      assert RawLevel([f] + rest) == [RawOf(f)] + RawLevel(rest);
    }
  }

  lemma {:induction false} OpenLevelsAgrees(levels: seq<seq<FileMeta>>, raw: map<nat, Bytes>, files: map<nat, Content>)
    requires FilesRep(raw, files) && LoadLevels(levels, files).Some?
    ensures OpenLevels(levels, raw) == Some(RawLevels(LoadLevels(levels, files).value))
    decreases |levels|
  {
    hide OpenFiles, LoadFiles, RawLevel, FilesRep;
    if levels != [] {
      OpenFilesAgrees(levels[0], raw, files);
      OpenLevelsAgrees(levels[1..], raw, files);
      var level, rest := LoadFiles(levels[0], files).value, LoadLevels(levels[1..], files).value;
      assert RawLevels([level] + rest) == [RawLevel(level)] + RawLevels(rest);
    }
  }

  lemma {:induction false} ReplayAgrees(m: Mem, batches: seq<Batch>)
    requires forall i :: 0 <= i < |batches| ==> BatchEncodable(batches[i])
    ensures ReplayInto(m, EncodeAll(batches)) == MemReplay(m, batches)
    decreases |batches|
  {
    hide EncodeOps, DecodeOps, MemApply, Wal.Fits;
    if batches != [] {
      assert EncodeAll(batches)[1..] == EncodeAll(batches[1..]);
      assert BatchEncodable(batches[0]);
      BatchRoundTrip(batches[0]);
      ReplayAgrees(MemApply(m, batches[0]), batches[1..]);
    }
  }

  /** Parsing the bytes gives the state that the abstract Open rebuilds, with a reader for every table. */
  lemma RawOpenAgrees(r: RawDisk, d: Disk)
    requires Rep(r, d) && Recover(d).Some?
    ensures RawOpen(r) == Some(RawOfState(Recover(d).value))
  {
    hide Manifests.Encode, Manifests.Decode, ManifestFits, OpenLevels, LoadLevels, ReplayInto, MemReplay, Wal.Replay,
      RepFile, RawLevels;
    if d.manifest.Some? { ManifestRoundTrip(d.manifest.value); }
    assert FilesRep(r.files, d.files);
    OpenLevelsAgrees(ManifestOn(d).levels, r.files, d.files);
    if d.log.Some? {
      LogRecords(r.log.value, d.log.value);
    } else {
      NoLogRecords();
    }
    ReplayAgrees(EMPTY, Records(d));
  }

  lemma LogRecords(bytes: Bytes, l: Log)
    requires RepLog(bytes, l)
    ensures Wal.Replay(bytes).0 == EncodeAll(l.records)
    ensures forall i :: 0 <= i < |l.records| ==> BatchEncodable(l.records[i])
  {
    hide Wal.Replay, BatchEncodable, EncodeOps;
  }

  lemma NoLogRecords()
    ensures Wal.Replay([]).0 == [] == EncodeAll([])
  {
    Wal.TornNothing();
  }

  // ---- Reads through the readers ----

  lemma ReaderServes(f: File, next: nat, key: Bytes)
    requires SSTable.TableFits(f.entries, f.params) && FileOk(f, next)
    ensures SSTable.Get(RawOf(f).table, key) == Lookup(f.entries, key)
    ensures SSTable.ReadAll(RawOf(f).table) == Some(f.entries)
  {
    hide SSTable.Get, SSTable.ReadAll, SSTable.IndexOf, SSTable.FilterOf, SSTable.EncodeTable, SSTable.TableFits,
      SortedEntries, MetaOf, TableOf;
    SSTable.GetWritten(f.entries, f.params, key);
    SSTable.ReadAllWritten(f.entries, f.params);
  }

  // ---- What the manifest records about the bytes ----

  /**
   * For every live table the manifest records the length of its file, and the first and the last key that reading
   * the file delivers.
   */
  lemma RecordedMeta(r: RawDisk, d: Disk, st: State, l: nat, i: nat)
    requires Rep(r, d) && Holds(d, st) && Inv(st) && l < |st.levels| && i < |st.levels[l]|
    ensures var f := st.levels[l][i];
            f.meta.number in r.files && f.entries != [] &&
            f.meta.fileSize == |r.files[f.meta.number]| &&
            f.meta.minKey == f.entries[0].key && f.meta.maxKey == f.entries[|f.entries| - 1].key &&
            var t := SSTable.Open(r.files[f.meta.number]); t.Some? && SSTable.ReadAll(t.value) == Some(f.entries)
  {
    hide SSTable.TableFits, SSTable.EncodeTable, SSTable.Open, SSTable.ReadAll, SSTable.IndexOf, SSTable.FilterOf,
      RepLog,
      Manifests.Encode, ManifestFits, MemReplay, ManifestOf, SortedEntries, NoTombstone, AllEntries, Numbers, Ascending;
    var f := st.levels[l][i];
    assert OnDisk(f, d.files);
    assert RepFile(r.files[f.meta.number], d.files[f.meta.number]);
    assert FileOk(f, st.next);
    SSTable.OpenWritten(f.entries, f.params);
    SSTable.ReadAllWritten(f.entries, f.params);
  }

  /** The files of a level, one after another. */
  function LevelBytes(ms: seq<FileMeta>, files: map<nat, Bytes>): Bytes {
    if ms == [] then []
    else (if ms[0].number in files then files[ms[0].number] else []) + LevelBytes(ms[1..], files)
  }

  lemma {:induction false} SizesAdd(level: Level, files: map<nat, Bytes>)
    requires forall i :: 0 <= i < |level| ==>
               level[i].meta.number in files && level[i].meta.fileSize == |files[level[i].meta.number]|
    ensures SumSizes(level) == |LevelBytes(Metas(level), files)| % TWO_64
    decreases |level|
  {
    if level != [] {
      var rest := level[1..];
      assert Metas(level)[1..] == Metas(rest);
      SizesAdd(rest, files);
      AddModulo(level[0].meta.fileSize, |LevelBytes(Metas(rest), files)|);
    }
  }

  lemma AddModulo(a: nat, b: nat)
    ensures (a + b % TWO_64) % TWO_64 == (a + b) % TWO_64
  {
    var q, r := b / TWO_64, b % TWO_64;
    assert a + b == (a + r) + q * TWO_64;
  }

  /** What a level's limit is compared with is the number of bytes of its files on disk, in 64 bits. */
  lemma LevelSizeIsBytes(r: RawDisk, d: Disk, st: State, l: nat)
    requires Rep(r, d) && Holds(d, st) && Inv(st) && l < |st.levels|
    ensures SumSizes(st.levels[l]) == |LevelBytes(Metas(st.levels[l]), r.files)| % TWO_64
  {
    hide Rep, Holds, Inv, SumSizes, SSTable.Open, SSTable.ReadAll, LevelBytes;
    forall i | 0 <= i < |st.levels[l]|
      ensures var m := st.levels[l][i].meta; m.number in r.files && m.fileSize == |r.files[m.number]|
    {
      RecordedMeta(r, d, st, l, i);
    }
    SizesAdd(st.levels[l], r.files);
  }
}
