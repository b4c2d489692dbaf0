/** The store itself (src/db.cpp): the object the mutex guards, over real table, log and manifest bytes. */
module Db {
  import opened Bytes
  import opened Kv
  import opened MemTables
  import opened WriteBatches
  import opened Manifests
  import opened Engine
  import opened Levels
  import opened Compaction
  import opened Recovery
  import opened Runs
  import opened ByteDisk
  import opened ByteRuns
  import opened SSTableIO
  import SSTable
  import Wal

  // ---- Readers beside the manifest entries ----

  /** The reader serves exactly the entries of the file. */
  ghost predicate Serves(r: SSTableReader, f: File) {
    r.View() == OpenedOf(f.entries, f.params) && SSTable.TableFits(f.entries, f.params)
  }

  ghost predicate ServesLevel(rs: seq<SSTableReader>, files: Level) {
    |rs| == |files| && forall i :: 0 <= i < |files| ==> Serves(rs[i], files[i])
  }

  /** Level by level and index by index, readers and files correspond. */
  ghost predicate Aligned(readers: seq<seq<SSTableReader>>, levels: seq<Level>) {
    |readers| == |levels| && forall l :: 0 <= l < |levels| ==> ServesLevel(readers[l], levels[l])
  }

  lemma ServesSnoc(rs: seq<SSTableReader>, files: Level, r: SSTableReader, f: File)
    requires ServesLevel(rs, files) && Serves(r, f)
    ensures ServesLevel(rs + [r], files + [f])
  {
    hide Serves;
  }

  /** Scans a table through its reader. */
  method Scan(r: SSTableReader, ghost f: File) returns (es: seq<Entry>)
    requires Serves(r, f)
    ensures es == f.entries
  {
    hide SSTable.IndexOf, SSTable.FilterOf, SSTable.EncodeTable, SSTable.TableFits, SSTable.ReadAll;
    var all := r.ReadAll();
    SSTable.ReadAllWritten(f.entries, f.params);
    es := all.value;
  }

  /** Looks a key up in a table through its reader. */
  method LookUp(r: SSTableReader, key: Bytes, ghost f: File) returns (v: Option<Val>)
    requires Serves(r, f) && SortedEntries(f.entries)
    ensures v == Lookup(f.entries, key)
  {
    hide SSTable.IndexOf, SSTable.FilterOf, SSTable.EncodeTable, SSTable.TableFits, SSTable.Get, SortedEntries, TableOf;
    SSTable.IndexOfSorted(f.entries);
    v := r.Get(key);
    SSTable.GetWritten(f.entries, f.params, key);
  }

  // ---- Sorting files by number ----

  ghost predicate NewestFirstIndices(metas: seq<FileMeta>, idx: seq<nat>, n: nat) {
    |idx| == n <= |metas| && (forall i :: 0 <= i < n ==> idx[i] < n) &&
    (forall i, j :: 0 <= i < j < n ==> idx[i] != idx[j] && metas[idx[i]].number >= metas[idx[j]].number)
  }

  lemma InsertKeepsOrder(metas: seq<FileMeta>, idx: seq<nat>, k: nat, n: nat)
    requires NewestFirstIndices(metas, idx, n) && k <= n < |metas|
    requires forall i :: 0 <= i < k ==> metas[idx[i]].number >= metas[n].number
    requires k < n ==> metas[idx[k]].number < metas[n].number
    ensures NewestFirstIndices(metas, idx[..k] + [n] + idx[k..], n + 1)
  {
    var r := idx[..k] + [n] + idx[k..];
    forall i | 0 <= i < |r|
      ensures r[i] == (if i < k then idx[i] else if i == k then n else idx[i - 1])
    {
    }
    forall i, j | 0 <= i < j < |r|
      ensures r[i] != r[j] && metas[r[i]].number >= metas[r[j]].number
    {
      if i == k {
        if j - 1 > k { assert metas[idx[k]].number >= metas[idx[j - 1]].number; }
      } else {
        var i' := if i < k then i else i - 1;
        if j != k {
          var j' := if j < k then j else j - 1;
          assert r[i] == idx[i'] && r[j] == idx[j'];
        }
      }
    }
  }

  /** std::sort of the file indices by descending number. */
  method SortNewestFirst(metas: seq<FileMeta>) returns (idx: seq<nat>)
    ensures NewestFirstIndices(metas, idx, |metas|)
  {
    idx := [];
    var n := 0;
    while n < |metas|
      invariant 0 <= n <= |metas| && NewestFirstIndices(metas, idx, n)
    {
      var k := 0;
      while k < |idx| && metas[idx[k]].number >= metas[n].number
        invariant 0 <= k <= |idx|
        invariant forall i :: 0 <= i < k ==> metas[idx[i]].number >= metas[n].number
      {
        k := k + 1;
      }
      InsertKeepsOrder(metas, idx, k, n);
      idx := idx[..k] + [n] + idx[k..];
      n := n + 1;
    }
  }

  /** Files listed in ascending order of number are sorted newest first by reversing the list. */
  lemma NewestFirstIsReverse(metas: seq<FileMeta>, idx: seq<nat>)
    requires NewestFirstIndices(metas, idx, |metas|)
    requires forall i, j :: 0 <= i < j < |metas| ==> metas[i].number < metas[j].number
    ensures forall i :: 0 <= i < |idx| ==> idx[i] == |idx| - 1 - i
  {
    Decreasing(idx, |idx|);
  }

  lemma {:induction false} Decreasing(idx: seq<nat>, n: nat)
    requires |idx| <= n && forall i :: 0 <= i < |idx| ==> idx[i] < n
    requires forall i, j :: 0 <= i < j < |idx| ==> idx[i] > idx[j]
    ensures forall i :: 0 <= i < |idx| ==> |idx| - 1 - i <= idx[i] <= n - 1 - i
    decreases |idx|
  {
    if idx != [] {
      var rest := idx[1..];
      forall i | 0 <= i < |rest|
        ensures rest[i] < n - 1
      {
        assert idx[0] > idx[i + 1];
      }
      if rest != [] { Decreasing(rest, n - 1); }
      forall i | 0 <= i < |idx|
        ensures |idx| - 1 - i <= idx[i] <= n - 1 - i
      {
        if i > 0 { assert idx[i] == rest[i - 1]; } else if rest != [] { assert idx[0] > rest[0]; }
      }
    }
  }

  lemma {:induction false} ReverseAt(files: Level, i: nat)
    requires i < |files|
    ensures Reverse(files)[i] == files[|files| - 1 - i]
  {
    if i < |files| - 1 { ReverseAt(files[1..], i); }
  }

  /** for (auto& e : entries) merged[e.key] = e; */
  method MergeInto(m: Kv.Table, es: seq<Entry>) returns (merged: Kv.Table)
    ensures merged == Insert(m, es)
  {
    merged := m;
    var i := 0;
    assert es[0..] == es;
    while i < |es|
      invariant 0 <= i <= |es|
      invariant Insert(merged, es[i..]) == Insert(m, es)
    {
      assert es[i..][1..] == es[i + 1..];
      merged := merged[es[i].key := es[i].val];
      i := i + 1;
    }
  }

  /** apply_entries of NewIterator. */
  method ApplyInto(m: Plain, es: seq<Entry>) returns (snapshot: Plain)
    ensures snapshot == ApplyEntries(m, es)
  {
    snapshot := m;
    var i := 0;
    assert es[0..] == es;
    while i < |es|
      invariant 0 <= i <= |es|
      invariant ApplyEntries(snapshot, es[i..]) == ApplyEntries(m, es)
    {
      assert es[i..][1..] == es[i + 1..];
      match es[i].val {
        case Live(v) => snapshot := snapshot[es[i].key := v];
        case Tombstone => snapshot := snapshot - {es[i].key};
      }
      i := i + 1;
    }
  }

  lemma {:induction false} ApplyEntriesAppend(m: Plain, a: seq<Entry>, b: seq<Entry>)
    ensures ApplyEntries(m, a + b) == ApplyEntries(ApplyEntries(m, a), b)
    decreases |a|
  {
    if a == [] {
      assert a + b == b;
    } else {
      assert (a + b)[1..] == a[1..] + b;
      match a[0].val
      case Live(v) => ApplyEntriesAppend(m[a[0].key := v], a[1..], b);
      case Tombstone => ApplyEntriesAppend(m - {a[0].key}, a[1..], b);
    }
  }

  lemma AllEntriesSnoc(files: Level, i: nat)
    requires i < |files|
    ensures AllEntries(files[..i + 1]) == AllEntries(files[..i]) + files[i].entries
  {
    assert files[..i + 1] == files[..i] + [files[i]];
    AllEntriesAppend(files[..i], [files[i]]);
    FilesMapOne(files[i]);
  }

  datatype CallStatus = Ok | IsClosed

  datatype GetResult = Found(value: Bytes) | NotThere | Refused

  datatype OpenResult = Opened(db: DB) | InvalidArgument | AlreadyExists

  class DB {
    const cfg: Config
    const memtable: MemTable
    const version: Version
    var readers: seq<seq<SSTableReader>>
    var disk: RawDisk
    var closing: bool
    var closed: bool
    var requested: bool

    /** The state this object represents. */
    ghost var st: State
    /** The file operations done so far, in order, on the directory found by Open. */
    ghost const origin: RawDisk
    ghost var trace: seq<Effect>

    ghost predicate Valid()
      reads this, memtable, version
    {
      && ConfigOk(cfg)
      && Inv(st)
      && memtable.View() == st.mem
      && version.View() == ManifestOf(st)
      && Aligned(readers, st.levels)
      && disk == RawApplyAll(origin, trace)
    }

    constructor Empty(cfg: Config, found: RawDisk)
      ensures this.cfg == cfg && disk == origin == found && trace == [] && !closing && !closed && !requested
      ensures fresh(memtable) && fresh(version) && memtable.View() == EMPTY && version.View() == INITIAL
    {
      this.cfg := cfg;
      memtable := new MemTable();
      version := new Version();
      readers := [];
      disk := found;
      origin := found;
      trace := [];
      st := State(EMPTY, 1, []);
      closing, closed, requested := false, false, false;
    }

    lemma ValidLevels()
      requires Valid()
      ensures |st.levels| == MAX_LEVELS
    {
      hide Aligned, RawApplyAll;
      InvLevels(st);
    }

    /** One file operation: the bytes the directory holds afterwards, recorded in the trace. */
    method Do(ghost e: Effect, after: RawDisk)
      requires after == RawApply(disk, e)
      requires disk == RawApplyAll(origin, trace)
      modifies this`disk, this`trace
      ensures disk == after && trace == old(trace) + [e] && disk == RawApplyAll(origin, trace)
    {
      RawApplyAllSnoc(origin, trace, e);
      disk := after;
      trace := trace + [e];
    }

    static lemma {:induction false} RawApplyAllSnoc(r: RawDisk, es: seq<Effect>, e: Effect)
      ensures RawApplyAll(r, es + [e]) == RawApply(RawApplyAll(r, es), e)
      decreases |es|
    {
      hide RawApply;
      if es == [] {
        assert es + [e] == [e] && [e][1..] == [];
        assert RawApplyAll(RawApply(r, e), []) == RawApply(r, e);
      } else {
        assert (es + [e])[1..] == es[1..] + [e];
        RawApplyAllSnoc(RawApply(r, es[0]), es[1..], e);
      }
    }

    // ---- Reads ----

    /** DB::Get. */
    method Get(key: Bytes) returns (r: GetResult)
      requires Valid()
      ensures closed ==> r == Refused
      ensures !closed ==> r == if key in Abs(st) then Found(Abs(st)[key]) else NotThere
    {
      hide Inv, Abs, Aligned, SearchFiles, SearchRanges, SearchLevels, ManifestOf, RawApplyAll, Visible;
      ValidLevels();
      if closed { return Refused; }
      GetIsAbs(st, key);
      var m := memtable.Get(key);
      if m.Some? { return Result(m.value); }
      var l0 := GetFromL0(key);
      if l0.Some? { return Result(l0.value); }
      var deep := GetFromDeeper(key);
      if deep.Some? { return Result(deep.value); }
      r := NotThere;
    }

    /** A tombstone is an answer, but the answer is NotFound. */
    static function Result(v: Val): GetResult {
      match v case Live(value) => Found(value) case Tombstone => NotThere
    }

    /** The part of Get that searches L0, newest file first. */
    method GetFromL0(key: Bytes) returns (r: Option<Val>)
      requires Valid()
      ensures |st.levels| == MAX_LEVELS && r == SearchFiles(Reverse(OldestFirst(st.levels[0])), key)
    {
      hide Abs, Serves, SortedEntries, SearchFiles, Reverse, OldestFirst, RawApplyAll, NoTombstone, MetaOf, AllEntries,
        TableOf;
      ValidLevels();
      ghost var files := st.levels[0];
      ghost var newest := Reverse(files);
      AscendingIsOldestFirst(files);
      assert version.levels[0] == Metas(files);
      var idx := SortNewestFirst(version.levels[0]);
      assert forall i :: 0 <= i < |files| ==> version.levels[0][i] == files[i].meta;
      NewestFirstIsReverse(version.levels[0], idx);
      assert ServesLevel(readers[0], files);
      var i := 0;
      assert newest[0..] == newest;
      while i < |idx|
        invariant 0 <= i <= |idx| == |newest|
        invariant SearchFiles(newest[i..], key) == SearchFiles(newest, key)
      {
        ReverseAt(files, i);
        SearchUnfold(newest[i..], key);
        ghost var f := files[idx[i]];
        assert newest[i..][0] == f && newest[i..][1..] == newest[i + 1..];
        assert FileOk(f, st.next);
        assert Serves(readers[0][idx[i]], files[idx[i]]);
        var v := LookUp(readers[0][idx[i]], key, f);
        if v.Some? { return v; }
        i := i + 1;
      }
      SearchUnfold(newest[i..], key);
      r := None;
    }

    static lemma SearchUnfold(files: Level, key: Bytes)
      ensures SearchFiles(files, key) ==
              if files == [] then None
              else match Lookup(files[0].entries, key) case Some(v) => Some(v) case None => SearchFiles(files[1..], key)
    {
      hide Lookup;
    }

    /** The part of Get that searches level 1 and deeper, skipping files by their recorded range. */
    method GetFromDeeper(key: Bytes) returns (r: Option<Val>)
      requires Valid()
      ensures |st.levels| == MAX_LEVELS && r == SearchLevels(st.levels[1..], key)
    {
      hide Abs, Serves, SortedEntries, SearchLevels, SearchRanges, RawApplyAll, NoTombstone, MetaOf, AllEntries,
        InRange, TableOf;
      ValidLevels();
      var lvl := 1;
      while lvl < MAX_LEVELS
        invariant 1 <= lvl <= MAX_LEVELS
        invariant SearchLevels(st.levels[lvl..], key) == SearchLevels(st.levels[1..], key)
      {
        ghost var files := st.levels[lvl];
        var metas := version.levels[lvl];
        assert metas == Metas(files);
        assert ServesLevel(readers[lvl], files);
        LevelsUnfold(st.levels[lvl..], key);
        assert st.levels[lvl..][0] == files && st.levels[lvl..][1..] == st.levels[lvl + 1..];
        var i := 0;
        assert files[0..] == files;
        while i < |metas|
          invariant 0 <= i <= |metas|
          invariant SearchRanges(files[i..], key) == SearchRanges(files, key)
        {
          ghost var f := files[i];
          assert metas[i] == f.meta;
          RangesUnfold(files[i..], key);
          assert files[i..][0] == f && files[i..][1..] == files[i + 1..];
          if InRange(metas[i], key) {
            assert FileOk(f, st.next);
            assert Serves(readers[lvl][i], files[i]);
            var v := LookUp(readers[lvl][i], key, f);
            if v.Some? { return v; }
          }
          i := i + 1;
        }
        RangesUnfold(files[i..], key);
        lvl := lvl + 1;
      }
      LevelsUnfold(st.levels[lvl..], key);
      r := None;
    }

    static lemma RangesUnfold(files: Level, key: Bytes)
      ensures SearchRanges(files, key) ==
              if files == [] then None
              else if !InRange(files[0].meta, key) then SearchRanges(files[1..], key)
              else match Lookup(files[0].entries, key) case Some(v) => Some(v)
                  case None => SearchRanges(files[1..], key)
    {
      hide Lookup, InRange;
    }

    static lemma LevelsUnfold(levels: seq<Level>, key: Bytes)
      ensures SearchLevels(levels, key) ==
              if levels == [] then None
              else match SearchRanges(levels[0], key) case Some(v) => Some(v)
                  case None => SearchLevels(levels[1..], key)
    {
      hide SearchRanges;
    }

    /** DB::NewIterator: the map its iterator walks. */
    method NewIterator() returns (snapshot: Plain)
      requires Valid()
      ensures snapshot == Abs(st)
    {
      hide Abs, Serves, SortedEntries, ApplyEntries, ApplyLevels, RawApplyAll, NoTombstone, MetaOf, AllEntries,
        OldestFirst, Entries, FilesOk;
      ValidLevels();
      SnapshotIsAbs(st);
      snapshot := map[];
      var lvl := MAX_LEVELS - 1;
      NoLevels(st.levels);
      while lvl >= 1
        invariant 0 <= lvl <= MAX_LEVELS - 1
        invariant snapshot == ApplyLevels(st.levels[lvl + 1..])
      {
        ghost var files := st.levels[lvl];
        assert ServesLevel(readers[lvl], files);
        ghost var below := snapshot;
        var i := 0;
        NoEntries(below, files);
        while i < |readers[lvl]|
          invariant 0 <= i <= |readers[lvl]|
          invariant snapshot == ApplyEntries(below, AllEntries(files[..i]))
        {
          assert Serves(readers[lvl][i], files[i]);
          var es := Scan(readers[lvl][i], files[i]);
          AllEntriesSnoc(files, i);
          ApplyEntriesAppend(below, AllEntries(files[..i]), es);
          snapshot := ApplyInto(snapshot, es);
          i := i + 1;
        }
        assert files[..i] == files;
        ApplyLevelsUnfold(st.levels[lvl..]);
        assert st.levels[lvl..][0] == files && st.levels[lvl..][1..] == st.levels[lvl + 1..];
        lvl := lvl - 1;
      }
      ghost var l0 := st.levels[0];
      ghost var deep := snapshot;
      AscendingIsOldestFirst(l0);
      var metas := version.levels[0];
      assert metas == Metas(l0);
      assert forall i :: 0 <= i < |l0| ==> metas[i] == l0[i].meta;
      var idx := SortNewestFirst(metas);
      NewestFirstIsReverse(metas, idx);
      assert ServesLevel(readers[0], l0);
      var k := |idx|;
      NoEntries(deep, l0);
      while k > 0
        invariant 0 <= k <= |idx| == |l0|
        invariant snapshot == ApplyEntries(deep, AllEntries(l0[..|l0| - k]))
      {
        k := k - 1;
        ghost var i := |l0| - 1 - k;
        assert idx[k] == i;
        assert Serves(readers[0][idx[k]], l0[idx[k]]);
        var es := Scan(readers[0][idx[k]], l0[idx[k]]);
        AllEntriesSnoc(l0, i);
        ApplyEntriesAppend(deep, AllEntries(l0[..i]), es);
        snapshot := ApplyInto(snapshot, es);
      }
      assert l0[..|l0| - k] == l0;
      snapshot := ApplyInto(snapshot, Entries(memtable.table));
    }

    static lemma NoLevels(levels: seq<Level>)
      ensures ApplyLevels(levels[|levels|..]) == map[]
    {
    }

    static lemma NoEntries(m: Plain, files: Level)
      ensures ApplyEntries(m, AllEntries(files[..0])) == m
    {
      assert files[..0] == [];
    }

    static lemma ApplyLevelsUnfold(levels: seq<Level>)
      requires levels != []
      ensures ApplyLevels(levels) == ApplyEntries(ApplyLevels(levels[1..]), AllEntries(levels[0]))
    {
      hide ApplyEntries, AllEntries;
    }

    // ---- Writing tables ----

    /** Writes one table file under the next number, records its metadata and opens a reader on it. */
    method AddTable(es: seq<Entry>) returns (fm: FileMeta, reader: SSTableReader)
      requires es != [] && SSTable.TableFits(es, cfg.filter)
      requires disk == RawApplyAll(origin, trace)
      modifies this`disk, this`trace, version`nextFileNumber
      ensures version.nextFileNumber == old(version.nextFileNumber) + 1
      ensures fm == MetaOf(old(version.nextFileNumber), es, cfg.filter) && fm.number == old(version.nextFileNumber)
      ensures Serves(reader, File(fm, es, cfg.filter))
      ensures fm.number in disk.files && fm.fileSize == |disk.files[fm.number]|
      ensures trace == old(trace) + [WriteTable(old(version.nextFileNumber), es, cfg.filter)]
      ensures disk == RawApplyAll(origin, trace)
    {
      hide SSTable.IndexOf, SSTable.FilterOf, SSTable.EncodeTable, SSTable.TableFits, SSTable.Open, RawApplyAll;
      var number := version.nextFileNumber;
      version.nextFileNumber := number + 1;
      var written := SSTableIO.Write(es, cfg.filter);
      Do(WriteTable(number, es, cfg.filter), disk.(files := disk.files[number := written.value]));
      fm := FileMeta(number, es[0].key, es[|es| - 1].key, |disk.files[number]|);
      SSTable.OpenWritten(es, cfg.filter);
      var opened' := OpenReader(disk.files[number]);
      reader := opened'.value;
    }

    /** The memtable's entries in key order. */
    method MemEntries() returns (entries: seq<Entry>)
      ensures entries == Entries(memtable.table)
    {
      var table := memtable.table;
      var keys := SortedKeys(table.Keys);
      entries := [];
      var i := 0;
      while i < |keys|
        invariant 0 <= i <= |keys|
        invariant entries == Entries(table)[..i]
      {
        entries := entries + [Entry(keys[i], table[keys[i]])];
        i := i + 1;
      }
    }

    /** Version::Save of the current version, renamed into place. */
    method SaveVersion()
      requires |version.levels| == MAX_LEVELS
      requires disk == RawApplyAll(origin, trace)
      modifies this`disk, this`trace
      ensures trace == old(trace) + [SaveManifest(version.View())]
      ensures disk == old(disk).(manifest := Some(Manifests.Encode(version.View())))
      ensures disk == RawApplyAll(origin, trace)
    {
      hide Manifests.Encode, RawApplyAll;
      var bytes := version.Save();
      Do(SaveManifest(version.View()), disk.(manifest := Some(bytes)));
    }

    /** DB::FlushMemTableLocked. */
    method FlushMemTable()
      requires Valid() && EffectsFit(Engine.Flush(st, cfg).1)
      modifies this`readers, this`disk, this`trace, this`st, memtable, version
      ensures Valid() && st == Engine.Flush(old(st), cfg).0 && st.mem.table == map[]
      ensures trace == old(trace) + Engine.Flush(old(st), cfg).1
      ensures old(st.mem.table) != map[] ==>
                st.mem == EMPTY && |version.levels[0]| == |old(version.levels)[0]| + 1 && disk.log == Some([])
    {
      hide Manifests.Encode;
      hide Inv, Aligned, MetaOf, Entries, RawApplyAll, Serves, SSTable.TableFits;
      ValidLevels();
      ghost var st0, t0 := st, trace;
      if memtable.table == map[] {
        assert t0 + [] == t0;
        return;
      }
      ghost var effects := Engine.Flush(st0, cfg).1;
      ghost var st1 := Engine.Flush(st0, cfg).0;
      EntriesNonEmpty(st0.mem.table);
      FlushKeepsInv(st0, cfg);
      var entries := MemEntries();
      assert EffectFits(effects[0]);
      var fm, reader := AddTable(entries);
      ghost var f := File(fm, entries, cfg.filter);
      AlignedFlush(readers, st0.levels, reader, f);
      version.levels := version.levels[0 := version.levels[0] + [fm]];
      readers := readers[0 := readers[0] + [reader]];
      ManifestAfterFlush(st0, st1, f, version.View());
      SaveVersion();
      memtable.Clear();
      Do(RemoveLog, disk.(log := None));
      Do(CreateLog, disk.(log := Some([])));
      st := st1;
      assert trace == t0 + effects;
    }

    static lemma ManifestAfterFlush(st0: State, st1: State, f: File, m: Manifest)
      requires |st0.levels| == MAX_LEVELS
      requires st1 == State(EMPTY, st0.next + 1, st0.levels[0 := st0.levels[0] + [f]])
      requires m.next == st0.next + 1
      requires m.levels == ManifestOf(st0).levels[0 := Metas(st0.levels[0]) + [f.meta]]
      ensures m == ManifestOf(st1)
    {
      assert Metas(st0.levels[0] + [f]) == Metas(st0.levels[0]) + [f.meta];
    }

    static lemma AlignedFlush(rs: seq<seq<SSTableReader>>, levels: seq<Level>, r: SSTableReader, f: File)
      requires Aligned(rs, levels) && |levels| == MAX_LEVELS && Serves(r, f)
      ensures |rs| == MAX_LEVELS
      ensures Aligned(rs[0 := rs[0] + [r]], levels[0 := levels[0] + [f]])
    {
      hide Serves, ServesLevel;
      assert ServesLevel(rs[0], levels[0]);
      ServesSnoc(rs[0], levels[0], r, f);
    }

    // ---- Compaction ----

    /** DB::NeedsCompactionLocked. */
    method NeedsCompaction() returns (r: Option<nat>)
      requires Valid()
      ensures |st.levels| == MAX_LEVELS && r == Engine.NeedsCompaction(st, cfg)
    {
      hide Inv, Aligned, RawApplyAll, Factor, SumSizes;
      ValidLevels();
      if |version.levels[0]| >= cfg.l0Trigger { return Some(0); }
      var target: nat := cfg.level1Target % TWO_64;
      var lvl := 1;
      while lvl < MAX_LEVELS - 1
        invariant 1 <= lvl <= MAX_LEVELS - 1
        invariant PickLevel(st.levels, lvl, target, cfg) == PickLevel(st.levels, 1, cfg.level1Target % TWO_64, cfg)
      {
        ghost var files := st.levels[lvl];
        var metas := version.levels[lvl];
        assert metas == Metas(files);
        var total := TotalSize(metas, files);
        if total > target { return Some(lvl); }
        target := target * Factor(cfg) % TWO_64;
        lvl := lvl + 1;
      }
      r := None;
    }

    /** size_t total over the recorded file sizes of a level. */
    static method TotalSize(metas: seq<FileMeta>, ghost files: Level) returns (total: nat)
      requires metas == Metas(files)
      ensures total == SumSizes(files)
    {
      hide SumSizes;
      total := 0;
      var i := 0;
      assert files[0..] == files;
      SumBound(files);
      while i < |metas|
        invariant 0 <= i <= |metas|
        invariant total < TWO_64 && (total + SumSizes(files[i..])) % TWO_64 == SumSizes(files)
      {
        SumStep(total, files[i..]);
        assert files[i..][0] == files[i] && files[i..][1..] == files[i + 1..];
        total := (total + metas[i].fileSize) % TWO_64;
        i := i + 1;
      }
      assert files[i..] == [];
      SumNone();
    }

    static lemma SumNone()
      ensures SumSizes([]) == 0
    {
    }

    static lemma SumBound(files: Level)
      ensures SumSizes(files) < TWO_64
    {
    }

    static lemma SumStep(total: nat, files: Level)
      requires files != []
      ensures ((total + files[0].meta.fileSize) % TWO_64 + SumSizes(files[1..])) % TWO_64 ==
              (total + SumSizes(files)) % TWO_64
    {
      hide SumSizes;
      var a, b := files[0].meta.fileSize, SumSizes(files[1..]);
      SumUnfold(files);
      ModSum(total + a, b);
      ModSum(a + b, total);
    }

    static lemma SumUnfold(files: Level)
      requires files != []
      ensures SumSizes(files) == (files[0].meta.fileSize + SumSizes(files[1..])) % TWO_64
    {
    }

    static lemma ModSum(x: nat, y: nat)
      ensures (x % TWO_64 + y) % TWO_64 == (x + y) % TWO_64
    {
      var q, r := x / TWO_64, x % TWO_64;
      assert x + y == (r + y) + q * TWO_64;
    }

    /** The merge of a level into the next: target level first, then the level's files from oldest to newest. */
    method Merge(level: nat) returns (merged: Kv.Table)
      requires Valid() && level + 1 < MAX_LEVELS
      ensures |st.levels| == MAX_LEVELS
      ensures var newer := if level == 0 then OldestFirst(st.levels[0]) else Reverse(st.levels[level]);
              merged == FilesMap(st.levels[level + 1] + newer)
    {
      hide Inv, Serves, TableOf, Insert, RawApplyAll, Reverse, OldestFirst, AllEntries, Ascending, FilesMap;
      ValidLevels();
      var metas := version.levels[level];
      ghost var files, deeper := st.levels[level], st.levels[level + 1];
      assert metas == Metas(files);
      merged := map[];
      var nextReaders := readers[level + 1];
      assert ServesLevel(nextReaders, deeper);
      var i := 0;
      MergedNone(deeper);
      while i < |nextReaders|
        invariant 0 <= i <= |nextReaders|
        invariant merged == FilesMap(deeper[..i])
      {
        assert Serves(nextReaders[i], deeper[i]);
        var es := Scan(nextReaders[i], deeper[i]);
        merged := MergeInto(merged, es);
        MergedSnoc(deeper, i);
        InsertIsOverlay(FilesMap(deeper[..i]), es);
        i := i + 1;
      }
      assert deeper[..i] == deeper;
      // The level's readers, newest first for L0, walked from the last to the first.
      var levelReaders := readers[level];
      assert ServesLevel(levelReaders, files);
      ghost var ordered := files;
      if level == 0 {
        var idx := SortNewestFirst(metas);
        AscendingMetas(st);
        NewestFirstIsReverse(metas, idx);
        var l0 := readers[0];
        levelReaders := seq(|idx|, n requires 0 <= n < |idx| => l0[idx[n]]);
        ordered := Reverse(files);
        forall n | 0 <= n < |ordered|
          ensures Serves(levelReaders[n], ordered[n])
        {
          ReverseAt(files, n);
          assert Serves(l0[idx[n]], files[idx[n]]);
        }
      }
      ghost var newer := Reverse(ordered);
      assert newer == if level == 0 then OldestFirst(files) else Reverse(files) by {
        if level == 0 {
          AscendingMetas(st);
          AscendingIsOldestFirst(files);
          ReverseTwice(files);
        }
      }
      var k := |levelReaders|;
      ghost var done := 0;
      MergedNone(newer);
      assert FilesMap(deeper) + map[] == FilesMap(deeper);
      while k > 0
        invariant 0 <= k <= |levelReaders| == |ordered| == |newer|
        invariant done == |ordered| - k
        invariant merged == FilesMap(deeper) + FilesMap(newer[..done])
      {
        k := k - 1;
        ReverseAt(ordered, done);
        assert Serves(levelReaders[k], ordered[k]);
        var es := Scan(levelReaders[k], ordered[k]);
        MergedSnoc(newer, done);
        InsertIsOverlay(merged, es);
        assert FilesMap(deeper) + (FilesMap(newer[..done]) + TableOf(es)) ==
               (FilesMap(deeper) + FilesMap(newer[..done])) + TableOf(es);
        merged := MergeInto(merged, es);
        done := done + 1;
      }
      assert newer[..done] == newer;
      FilesMapAppend(deeper, newer);
    }

    static lemma MergedNone(files: Level)
      ensures FilesMap(files[..0]) == map[]
    {
      assert files[..0] == [];
      FilesMapNone();
    }

    static lemma MergedSnoc(files: Level, i: nat)
      requires i < |files|
      ensures FilesMap(files[..i + 1]) == FilesMap(files[..i]) + TableOf(files[i].entries)
    {
      hide TableOf;
      assert files[..i + 1] == files[..i] + [files[i]];
      FilesMapAppend(files[..i], [files[i]]);
      FilesMapOne(files[i]);
    }

    static lemma AscendingMetas(st: State)
      requires Inv(st)
      ensures |st.levels| == MAX_LEVELS && Ascending(st.levels[0])
      ensures forall i, j :: 0 <= i < j < |st.levels[0]| ==>
              Metas(st.levels[0])[i].number < Metas(st.levels[0])[j].number
    {
      hide FilesOk, SortedEntries, NoTombstone;
    }

    static lemma {:induction false} ReverseSnoc(files: Level, f: File)
      ensures Reverse(files + [f]) == [f] + Reverse(files)
    {
      if files == [] {
        assert files + [f] == [f] && [f][1..] == [];
        assert Reverse([f]) == Reverse([]) + [f];
      } else {
        assert (files + [f])[1..] == files[1..] + [f];
        ReverseSnoc(files[1..], f);
      }
    }

    static lemma {:induction false} ReverseTwice(files: Level)
      ensures Reverse(Reverse(files)) == files
    {
      if files != [] {
        ReverseTwice(files[1..]);
        ReverseSnoc(Reverse(files[1..]), files[0]);
      }
    }

    static function Kept(es: seq<Entry>, drop: bool): seq<Entry> {
      if drop then DropTombstones(es) else es
    }

    static ghost predicate NonEmpty(batches: seq<seq<Entry>>) {
      forall i :: 0 <= i < |batches| ==> batches[i] != []
    }

    /** The files written for the batches closed so far. */
    static ghost function Outputs(number: nat, batches: seq<seq<Entry>>, p: SSTable.FilterParams): Level {
      if NonEmpty(batches) then NewFiles(number, batches, p) else []
    }

    /** What the output loop has done once it has closed the given batches. */
    ghost predicate Wrote(done: seq<seq<Entry>>, first: nat, t0: seq<Effect>, metas: seq<FileMeta>,
            rs: seq<SSTableReader>)
      reads this, version
    {
      var files := Outputs(first, done, cfg.filter);
      NonEmpty(done) && metas == Metas(files) && ServesLevel(rs, files) &&
      version.nextFileNumber == first + |done| && trace == t0 + Writes(files) &&
      disk == RawApplyAll(origin, trace)
    }

    /** flush_batch: one more output file. */
    method CloseBatch(batch: seq<Entry>, metas: seq<FileMeta>, rs: seq<SSTableReader>,
                      ghost done: seq<seq<Entry>>, ghost first: nat, ghost t0: seq<Effect>)
      returns (metas': seq<FileMeta>, rs': seq<SSTableReader>)
      requires batch != [] && SSTable.TableFits(batch, cfg.filter)
      requires Wrote(done, first, t0, metas, rs)
      modifies this`disk, this`trace, version`nextFileNumber
      ensures Wrote(done + [batch], first, t0, metas', rs')
    {
      hide RawApplyAll, Serves, MetaOf, SSTable.TableFits, Writes, NewFiles, ServesLevel, Metas;
      var fm, reader := AddTable(batch);
      OutputsSnoc(first, done, batch, rs, reader, fm, cfg.filter);
      ghost var files, files' := Outputs(first, done, cfg.filter), Outputs(first, done + [batch], cfg.filter);
      ghost var e := WriteTable(fm.number, batch, cfg.filter);
      assert (t0 + Writes(files)) + [e] == t0 + (Writes(files) + [e]);
      metas', rs' := metas + [fm], rs + [reader];
    }

    /** The output loop of CompactLocked: fills a batch, and closes a file when the batch has reached the cap. */
    method WriteOutputs(merged: Kv.Table, drop: bool) returns (metas: seq<FileMeta>, rs: seq<SSTableReader>)
      requires disk == RawApplyAll(origin, trace)
      requires var batches := Split([], 0, Kept(Entries(merged), drop), OutputCap(cfg));
               forall i :: 0 <= i < |batches| ==> SSTable.TableFits(batches[i], cfg.filter)
      modifies this`disk, this`trace, version`nextFileNumber
      ensures Wrote(Split([], 0, Kept(Entries(merged), drop), OutputCap(cfg)), old(version.nextFileNumber), old(trace),
              metas, rs)
    {
      hide RawApplyAll, SSTable.TableFits, EntryBytes, Split, DropTombstones, Entries, Wrote, Kept, SortedKeys,
        OutputCap;
      ghost var first, t0 := version.nextFileNumber, trace;
      ghost var all := Entries(merged);
      var keys := SortedKeys(merged.Keys);
      EntriesKeys(merged);
      var cap := OutputCap(cfg);
      ghost var batches := Split([], 0, Kept(all, drop), cap);
      var batch: seq<Entry>, batchBytes: nat := [], 0;
      metas, rs := [], [];
      ghost var done: seq<seq<Entry>> := [];
      WroteNone(first, t0);
      assert all[0..] == all && done + batches == batches;
      var i := 0;
      while i < |keys|
        invariant 0 <= i <= |keys| == |all|
        invariant batches == done + Split(batch, batchBytes, Kept(all[i..], drop), cap)
        invariant Wrote(done, first, t0, metas, rs)
      {
        var e := Entry(keys[i], merged[keys[i]]);
        assert all[i..][0] == e && all[i..][1..] == all[i + 1..];
        OutputStep(batches, done, batch, batchBytes, all[i..], drop, cap);
        if !(drop && e.val.Tombstone?) {
          batchBytes := batchBytes + EntryBytes(e);
          batch := batch + [e];
          if batchBytes >= cap {
            metas, rs := CloseBatch(batch, metas, rs, done, first, t0);
            done := done + [batch];
            batch, batchBytes := [], 0;
          }
        }
        i := i + 1;
      }
      assert all[i..] == [];
      OutputEnd(batches, done, batch, batchBytes, drop, cap);
      if batch != [] {
        metas, rs := CloseBatch(batch, metas, rs, done, first, t0);
      }
    }

    static lemma OutputStep(batches: seq<seq<Entry>>, done: seq<seq<Entry>>, batch: seq<Entry>, bytes: nat,
            es: seq<Entry>, drop: bool, cap: nat)
      requires es != [] && batches == done + Split(batch, bytes, Kept(es, drop), cap)
      ensures var e, rest := es[0], es[1..];
              if drop && e.val.Tombstone? then batches == done + Split(batch, bytes, Kept(rest, drop), cap)
              else if bytes + EntryBytes(e) >= cap then
                batches == (done + [batch + [e]]) + Split([], 0, Kept(rest, drop), cap) &&
                |done| < |batches| && batches[|done|] == batch + [e]
              else batches == done + Split(batch + [e], bytes + EntryBytes(e), Kept(rest, drop), cap)
    {
      hide Split, Kept, EntryBytes;
      KeptUnfold(es, drop);
      SplitUnfold(batch, bytes, Kept(es, drop), cap);
    }

    static lemma OutputEnd(batches: seq<seq<Entry>>, done: seq<seq<Entry>>, batch: seq<Entry>, bytes: nat, drop: bool,
            cap: nat)
      requires batches == done + Split(batch, bytes, Kept([], drop), cap)
      ensures batch == [] ==> batches == done
      ensures batch != [] ==> batches == done + [batch] && batches[|done|] == batch
    {
      hide Split, Kept;
      KeptUnfold([], drop);
      SplitUnfold(batch, bytes, [], cap);
    }

    lemma WroteNone(first: nat, t0: seq<Effect>)
      requires version.nextFileNumber == first && trace == t0 && disk == RawApplyAll(origin, trace)
      ensures Wrote([], first, t0, [], [])
    {
      hide RawApplyAll;
      var files := Outputs(first, [], cfg.filter);
      assert files == [] && Writes(files) == [] && t0 + [] == t0;
    }

    static lemma EntriesKeys(m: Kv.Table)
      ensures |Entries(m)| == |SortedKeys(m.Keys)|
      ensures forall i :: 0 <= i < |Entries(m)| ==>
              Entries(m)[i] == Entry(SortedKeys(m.Keys)[i], m[SortedKeys(m.Keys)[i]])
    {
    }

    static lemma KeptUnfold(es: seq<Entry>, drop: bool)
      ensures es == [] ==> Kept(es, drop) == []
      ensures es != [] ==>
        Kept(es, drop) == if drop && es[0].val.Tombstone? then Kept(es[1..], drop) else [es[0]] + Kept(es[1..], drop)
    {
    }

    static lemma SplitUnfold(batch: seq<Entry>, bytes: nat, es: seq<Entry>, cap: nat)
      ensures es == [] ==> Split(batch, bytes, es, cap) == if batch == [] then [] else [batch]
      ensures es != [] ==>
        Split(batch, bytes, es, cap) ==
        if bytes + EntryBytes(es[0]) >= cap then [batch + [es[0]]] + Split([], 0, es[1..], cap)
        else Split(batch + [es[0]], bytes + EntryBytes(es[0]), es[1..], cap)
    {
      hide EntryBytes;
    }

    static lemma OutputsSnoc(number: nat, done: seq<seq<Entry>>, batch: seq<Entry>, rs: seq<SSTableReader>,
            r: SSTableReader, fm: FileMeta, p: SSTable.FilterParams)
      requires NonEmpty(done) && batch != []
      requires ServesLevel(rs, Outputs(number, done, p))
      requires fm == MetaOf(number + |done|, batch, p) && Serves(r, File(fm, batch, p))
      ensures NonEmpty(done + [batch])
      ensures var files, files' := Outputs(number, done, p), Outputs(number, done + [batch], p);
              Metas(files') == Metas(files) + [fm] && ServesLevel(rs + [r], files') &&
              Writes(files') == Writes(files) + [WriteTable(fm.number, batch, p)]
    {
      hide Serves, MetaOf;
      var files, files' := Outputs(number, done, p), Outputs(number, done + [batch], p);
      assert files' == files + [File(fm, batch, p)];
      ServesSnoc(rs, files, r, File(fm, batch, p));
    }

    /** DB::CompactLocked. */
    method CompactLevel(level: nat)
      requires Valid() && level + 1 < MAX_LEVELS && EffectsFit(Engine.Compact(st, level, cfg).1)
      modifies this`readers, this`disk, this`trace, this`st, version
      ensures Valid() && st == Engine.Compact(old(st), level, cfg).0
      ensures trace == old(trace) + Engine.Compact(old(st), level, cfg).1
    {
      hide Manifests.Encode;
      hide Inv, Aligned, RawApplyAll, Split, MergedEntries, NewFiles, Writes, Removals, SSTable.TableFits, Serves,
        ManifestOf, Kept, Entries, OutputCap, ServesLevel, Metas;
      ValidLevels();
      ghost var st0, t0 := st, trace;
      ghost var batches := Split([], 0, MergedEntries(st0.levels, level), OutputCap(cfg));
      ghost var st1, effects := Engine.Compact(st0, level, cfg).0, Engine.Compact(st0, level, cfg).1;
      SplitNonEmpty([], 0, MergedEntries(st0.levels, level), OutputCap(cfg));
      ghost var files, retired := NewFiles(st0.next, batches, cfg.filter), st0.levels[level] + st0.levels[level + 1];
      CompactParts(st0, level, cfg);
      ManifestParts(st0, level);
      CompactKeepsInv(st0, level, cfg);
      var merged := Merge(level);
      OutputsFit(st0, level, merged, cfg);
      var metas, rs := WriteOutputs(merged, level + 1 == MAX_LEVELS - 1);
      assert Outputs(st0.next, batches, cfg.filter) == files;
      var oldNumbers := NumbersOf(version.levels[level] + version.levels[level + 1]);
      version.levels := version.levels[level := []][level + 1 := metas];
      AlignedCompact(readers, st0.levels, rs, files, level);
      readers := readers[level := []][level + 1 := rs];
      NewFilesLength(st0.next, batches, cfg.filter);
      ManifestAfterCompact(st0, st1, level, files, version.View());
      SaveVersion();
      RemoveTables(oldNumbers, retired);
      st := st1;
      assert t0 + Writes(files) + [SaveManifest(ManifestOf(st1))] + Removals(retired) ==
             t0 + (Writes(files) + [SaveManifest(ManifestOf(st1))] + Removals(retired));
    }

    static lemma CompactParts(st: State, level: nat, cfg: Config)
      requires |st.levels| == MAX_LEVELS && level + 1 < MAX_LEVELS
      ensures var batches := Split([], 0, MergedEntries(st.levels, level), OutputCap(cfg));
              (forall i :: 0 <= i < |batches| ==> batches[i] != []) &&
              var files := NewFiles(st.next, batches, cfg.filter);
              var st1 := State(st.mem, st.next + |files|, st.levels[level := []][level + 1 := files]);
              Engine.Compact(st, level, cfg) ==
              (st1, Writes(files) + [SaveManifest(ManifestOf(st1))] + Removals(st.levels[level] + st.levels[level + 1]))
    {
      hide Split, MergedEntries, OutputCap, NewFiles, Writes, Removals, ManifestOf;
      SplitNonEmpty([], 0, MergedEntries(st.levels, level), OutputCap(cfg));
    }

    static lemma ManifestParts(st: State, level: nat)
      requires level + 1 < |st.levels|
      ensures ManifestOf(st).next == st.next && |ManifestOf(st).levels| == |st.levels|
      ensures ManifestOf(st).levels[level] + ManifestOf(st).levels[level + 1] ==
              Metas(st.levels[level] + st.levels[level + 1])
    {
    }

    static lemma NewFilesLength(number: nat, batches: seq<seq<Entry>>, p: SSTable.FilterParams)
      requires forall i :: 0 <= i < |batches| ==> batches[i] != []
      ensures |NewFiles(number, batches, p)| == |batches|
    {
    }

    /** Deletes the old files once the new manifest is in place. */
    method RemoveTables(numbers: seq<nat>, ghost retired: Level)
      requires numbers == NumbersOf(Metas(retired))
      requires disk == RawApplyAll(origin, trace)
      modifies this`disk, this`trace
      ensures trace == old(trace) + Removals(retired) && disk == RawApplyAll(origin, trace)
    {
      hide RawApplyAll;
      ghost var t1, all := trace, Removals(retired);
      RemovalsAre(retired, numbers);
      assert t1 + all[..0] == t1;
      var i := 0;
      while i < |numbers|
        invariant 0 <= i <= |numbers| == |all|
        invariant trace == t1 + all[..i] && disk == RawApplyAll(origin, trace)
      {
        Do(RemoveTable(numbers[i]), disk.(files := disk.files - {numbers[i]}));
        assert all[..i + 1] == all[..i] + [RemoveTable(numbers[i])];
        i := i + 1;
      }
      assert all[..i] == all;
    }

    static function NumbersOf(ms: seq<FileMeta>): (ns: seq<nat>)
      ensures |ns| == |ms|
    {
      seq(|ms|, i requires 0 <= i < |ms| => ms[i].number)
    }

    static lemma RemovalsAre(files: Level, numbers: seq<nat>)
      requires numbers == NumbersOf(Metas(files))
      ensures |numbers| == |files| && forall i :: 0 <= i < |files| ==> Removals(files)[i] == RemoveTable(numbers[i])
    {
    }

    /** What the widths of the compaction's writes give the output loop. */
    static lemma OutputsFit(st: State, level: nat, merged: Kv.Table, cfg: Config)
      requires |st.levels| == MAX_LEVELS && level + 1 < MAX_LEVELS && EffectsFit(Engine.Compact(st, level, cfg).1)
      requires var newer := if level == 0 then OldestFirst(st.levels[0]) else Reverse(st.levels[level]);
               merged == FilesMap(st.levels[level + 1] + newer)
      ensures var es := Kept(Entries(merged), level + 1 == MAX_LEVELS - 1);
              var batches := Split([], 0, es, OutputCap(cfg));
              es == MergedEntries(st.levels, level) &&
              (forall i :: 0 <= i < |batches| ==> SSTable.TableFits(batches[i], cfg.filter))
    {
      hide Split, SSTable.TableFits, Entries, FilesMap, DropTombstones, MetaOf, ManifestOf, OldestFirst, Reverse,
        Removals;
      var es := MergedEntries(st.levels, level);
      var batches := Split([], 0, es, OutputCap(cfg));
      SplitNonEmpty([], 0, es, OutputCap(cfg));
      var effects := Engine.Compact(st, level, cfg).1;
      var files := NewFiles(st.next, batches, cfg.filter);
      forall i | 0 <= i < |batches|
        ensures SSTable.TableFits(batches[i], cfg.filter)
      {
        assert effects[i] == Writes(files)[i];
        NewFileParts(st.next + i, batches[i], cfg.filter);
        assert EffectFits(effects[i]);
      }
    }

    static lemma AlignedCompact(readers: seq<seq<SSTableReader>>, levels: seq<Level>, rs: seq<SSTableReader>,
            files: Level, level: nat)
      requires Aligned(readers, levels) && |levels| == MAX_LEVELS && level + 1 < MAX_LEVELS && ServesLevel(rs, files)
      ensures |readers| == MAX_LEVELS
      ensures Aligned(readers[level := []][level + 1 := rs], levels[level := []][level + 1 := files])
    {
      hide Serves;
    }

    static lemma ManifestAfterCompact(st0: State, st1: State, level: nat, files: Level, m: Manifest)
      requires |st0.levels| == MAX_LEVELS && level + 1 < MAX_LEVELS
      requires st1 == State(st0.mem, st0.next + |files|, st0.levels[level := []][level + 1 := files])
      requires m.next == st0.next + |files|
      requires m.levels == ManifestOf(st0).levels[level := []][level + 1 := Metas(files)]
      ensures m == ManifestOf(st1)
    {
      NoMetasIn();
    }

    static lemma NoMetasIn()
      ensures Metas([]) == []
    {
    }

    /** while (NeedsCompactionLocked(&level)) CompactLocked(level); */
    method CompactUntilSettled()
      requires Valid() && EffectsFit(CompactAll(st, cfg).1)
      modifies this`readers, this`disk, this`trace, this`st, version
      ensures Valid() && st == CompactAll(old(st), cfg).0 && Settled(st, cfg)
      ensures trace == old(trace) + CompactAll(old(st), cfg).1
    {
      hide Inv, Aligned, RawApplyAll, EffectFits, CompactAll, Engine.Compact, ManifestOf;
      ValidLevels();
      ghost var st0, t0 := st, trace;
      ghost var done: seq<Effect> := [];
      assert done + CompactAll(st0, cfg).1 == CompactAll(st0, cfg).1 && t0 + done == t0;
      while true
        invariant Valid() && |st.levels| == MAX_LEVELS
        invariant CompactAll(st0, cfg) == (CompactAll(st, cfg).0, done + CompactAll(st, cfg).1)
        invariant EffectsFit(CompactAll(st, cfg).1)
        invariant trace == t0 + done
        decreases Rank(st, cfg)
      {
        ghost var here := st;
        var level := NeedsCompaction();
        CompactAllUnfold(here, cfg);
        if level == None {
          assert done + [] == done;
          SettledIff(here, cfg);
          return;
        }
        ghost var first, rest := Engine.Compact(here, level.value, cfg).1,
            CompactAll(Engine.Compact(here, level.value, cfg).0, cfg).1;
        FitParts(first, rest);
        CompactLevel(level.value);
        ValidLevels();
        assert (t0 + done) + first == t0 + (done + first);
        assert done + (first + rest) == (done + first) + rest;
        done := done + first;
      }
    }

    static lemma CompactAllUnfold(st: State, cfg: Config)
      requires |st.levels| == MAX_LEVELS && cfg.l0Trigger >= 1
      ensures match Engine.NeedsCompaction(st, cfg)
              case None => CompactAll(st, cfg) == (st, [])
              case Some(level) =>
                level + 1 < MAX_LEVELS &&
                var (st1, es1) := Engine.Compact(st, level, cfg);
                Rank(st1, cfg) < Rank(st, cfg) &&
                CompactAll(st, cfg) == (CompactAll(st1, cfg).0, es1 + CompactAll(st1, cfg).1)
    {
      hide Engine.Compact, Engine.NeedsCompaction;
      if Engine.NeedsCompaction(st, cfg).Some? {
        NextPickDeeper(st, Engine.NeedsCompaction(st, cfg).value, cfg);
      }
    }

    static lemma FitParts(a: seq<Effect>, b: seq<Effect>)
      requires EffectsFit(a + b)
      ensures EffectsFit(a) && EffectsFit(b)
    {
      hide EffectFits;
      forall i | 0 <= i < |a|
        ensures EffectFits(a[i])
      {
        assert EffectFits((a + b)[i]);
      }
      forall i | 0 <= i < |b|
        ensures EffectFits(b[i])
      {
        assert EffectFits((a + b)[|a| + i]);
      }
    }

    // ---- The critical sections ----

    /** Flush the memtable whatever its size, then compact: DB::Flush and the body of the background loop. */
    method FlushThenCompact()
      requires Valid() && EffectsFit(FlushAndCompact(st, cfg).1)
      modifies this`readers, this`disk, this`trace, this`st, memtable, version
      ensures Valid() && st == FlushAndCompact(old(st), cfg).0 && Settled(st, cfg) && st.mem.table == map[]
      ensures trace == old(trace) + FlushAndCompact(old(st), cfg).1
    {
      hide Inv, Aligned, RawApplyAll, EffectFits, CompactAll, Engine.Flush, ManifestOf, Settled;
      ValidLevels();
      FlushSettles(st, cfg);
      ghost var st0, t0 := st, trace;
      ghost var first, rest := Engine.Flush(st0, cfg).1, CompactAll(Engine.Flush(st0, cfg).0, cfg).1;
      FitParts(first, rest);
      FlushMemTable();
      CompactUntilSettled();
      assert (t0 + first) + rest == t0 + (first + rest);
    }

    /** DB::Flush. */
    method Flush()
      requires Valid() && EffectsFit(FlushAndCompact(st, cfg).1)
      modifies this`readers, this`disk, this`trace, this`st, memtable, version
      ensures Valid() && st == FlushAndCompact(old(st), cfg).0 && Abs(st) == old(Abs(st))
      ensures Settled(st, cfg) && st.mem.table == map[]
      ensures trace == old(trace) + FlushAndCompact(old(st), cfg).1
    {
      hide Inv, Aligned, RawApplyAll, EffectsFit, FlushAndCompact, ManifestOf, Abs, Settled;
      ghost var st0 := st;
      FlushThenCompactKeeps(st0, cfg);
      FlushThenCompact();
    }

    static lemma FlushThenCompactKeeps(st: State, cfg: Config)
      requires Inv(st) && cfg.l0Trigger >= 1
      ensures |st.levels| == MAX_LEVELS && Abs(FlushAndCompact(st, cfg).0) == Abs(st)
    {
      hide Inv, Abs, Engine.Flush, CompactAll, Contents;
      InvLevels(st);
      FlushKeepsMap(st, cfg);
      FlushKeepsInv(st, cfg);
      CompactAllKeeps(Engine.Flush(st, cfg).0, cfg);
    }

    /** DB::MaybeFlushLocked: the size threshold of synchronous mode. */
    method MaybeFlush()
      requires Valid() && EffectsFit(Engine.MaybeFlush(st, cfg).1)
      modifies this`readers, this`disk, this`trace, this`st, memtable, version
      ensures Valid() && st == Engine.MaybeFlush(old(st), cfg).0 && Settled(st, cfg)
      ensures old(st.mem.approx) >= cfg.flushBytes && old(st.mem.table) != map[] ==> st.mem == EMPTY
      ensures old(st.mem.approx) < cfg.flushBytes ==> st.mem == old(st.mem)
      ensures trace == old(trace) + Engine.MaybeFlush(old(st), cfg).1
    {
      hide Inv, Aligned, RawApplyAll, EffectsFit, CompactAll, FlushAndCompact, ManifestOf, Settled;
      MaybeFlushReaches(st, cfg);
      if memtable.approxBytes >= cfg.flushBytes {
        FlushThenCompact();
      } else {
        CompactUntilSettled();
      }
    }

    /**
     * DB::Write. An accepted batch is in the log before it is in the memtable, and the user's map has all of it;
     * an empty batch and a closed store change nothing.
     */
    method Write(batch: WriteBatch) returns (s: CallStatus)
      requires Valid() && batch.Built()
      requires !closed ==> EffectsFit(Engine.Write(st, batch.ops, cfg).1)
      modifies this`readers, this`disk, this`trace, this`st, this`requested, memtable, version
      ensures Valid()
      ensures s == IsClosed <==> batch.ops != [] && closed
      ensures !closed ==> st == Engine.Write(old(st), batch.ops, cfg).0
      ensures !closed ==> trace == old(trace) + Engine.Write(old(st), batch.ops, cfg).1
      ensures !closed ==> Abs(st) == PlainApply(old(Abs(st)), batch.ops)
      ensures !closed && batch.ops != [] ==>
                var m := MemApply(old(st.mem), batch.ops);
                if cfg.background then st == State(m, old(st.next), old(st.levels))
                else Settled(st, cfg) && st.mem == if m.approx >= cfg.flushBytes then EMPTY else m
      ensures closed ==> st == old(st) && trace == old(trace)
      ensures requested == (old(requested) || (cfg.background && !closed && batch.ops != []))
    {
      hide Inv, Aligned, RawApplyAll, EffectFits, Engine.MaybeFlush, ManifestOf, Abs, PlainApply, EncodeOps, DecodeOps,
        MemApply, Wal.Frame, Settled;
      ValidLevels();
      ghost var st0, t0, ops := st, trace, batch.ops;
      if batch.Empty() {
        NoOps(Abs(st0));
        EmptyWrite(st0, cfg);
        assert t0 + [] == t0;
        return Ok;
      }
      if closed { return IsClosed; }
      ghost var effects := Engine.Write(st0, ops, cfg).1;
      ghost var st1 := Logged(st0, ops);
      assert EffectFits(effects[0]);
      AppendFits(ops);
      WriteKeepsMap(st0, ops, cfg);
      WriteReaches(st0, ops, cfg);
      var bytes := Wal.AddRecord(LogBytes(disk), batch.rep);
      Do(AppendLog(ops), disk.(log := Some(bytes)));
      BatchRoundTrip(ops);
      var ok := batch.Iterate(memtable);
      LoggedManifest(st0, ops);
      st := st1;
      LoggedInv(st0, ops);
      if cfg.background {
        requested := true;
        assert effects == [AppendLog(ops)];
      } else {
        ghost var rest := Engine.MaybeFlush(st1, cfg).1;
        assert effects == [AppendLog(ops)] + rest;
        FitParts([AppendLog(ops)], rest);
        MaybeFlush();
        assert (t0 + [AppendLog(ops)]) + rest == t0 + ([AppendLog(ops)] + rest);
      }
      return Ok;
    }

    static lemma AppendFits(ops: Batch)
      requires EffectFits(AppendLog(ops))
      ensures BatchFits(ops)
    {
    }

    static lemma LoggedManifest(st: State, ops: Batch)
      ensures ManifestOf(Logged(st, ops)) == ManifestOf(st)
    {
    }

    static lemma LoggedInv(st: State, ops: Batch)
      requires Inv(st)
      ensures Inv(Logged(st, ops))
    {
      hide LevelsOk, MemApply;
    }

    static lemma WriteKeepsMap(st: State, ops: Batch, cfg: Config)
      requires Inv(st) && cfg.l0Trigger >= 1
      ensures |st.levels| == MAX_LEVELS && Abs(Engine.Write(st, ops, cfg).0) == PlainApply(Abs(st), ops)
    {
      hide Inv, Abs, FlushAndCompact, CompactAll, Logged, PlainApply;
      InvLevels(st);
      LoggedKeeps(st, ops);
      InvLevels(Logged(st, ops));
      FlushThenCompactKeeps(Logged(st, ops), cfg);
      CompactAllKeeps(Logged(st, ops), cfg);
      NoOps(Abs(st));
    }

    /** One iteration of DB::BackgroundLoop after it has woken up with work. */
    method BackgroundRound()
      requires Valid() && cfg.background && requested && !closing
      requires EffectsFit(FlushAndCompact(st, cfg).1)
      modifies this`readers, this`disk, this`trace, this`st, this`requested, memtable, version
      ensures Valid() && st == FlushAndCompact(old(st), cfg).0 && Abs(st) == old(Abs(st)) && !requested
      ensures Settled(st, cfg) && st.mem.table == map[]
      ensures trace == old(trace) + FlushAndCompact(old(st), cfg).1
    {
      hide Inv, Aligned, RawApplyAll, EffectsFit, FlushAndCompact, ManifestOf, Abs, Settled;
      requested := false;
      Flush();
    }

    /** DB::Close up to where it lets go of the mutex to wait for the background thread. */
    method CloseBegin()
      requires Valid()
      modifies this`closing
      ensures Valid() && closing == (old(closing) || !closed)
    {
      hide Inv, Aligned, RawApplyAll, ManifestOf;
      if closed { return; }
      closing := true;
    }

    /** DB::Close after the background thread has ended: the tables alone then hold the user's map. */
    method CloseFinish()
      requires Valid() && closing && !closed && EffectsFit(CloseEnd(st, cfg).1)
      modifies this`readers, this`disk, this`trace, this`st, this`closed, memtable, version
      ensures Valid() && closed && st == CloseEnd(old(st), cfg).0
      ensures trace == old(trace) + CloseEnd(old(st), cfg).1
      ensures st.mem.table == map[] && Visible(LevelsMap(st.levels)) == old(Abs(st))
      ensures disk.manifest == Some(Manifests.Encode(ManifestOf(st)))
    {
      hide Manifests.Encode;
      hide Inv, Aligned, RawApplyAll, EffectFits, Engine.Flush, LevelsMap, Visible;
      ValidLevels();
      ghost var st0, t0 := st, trace;
      ghost var st1, first := Engine.Flush(st0, cfg).0, Engine.Flush(st0, cfg).1;
      FitParts(first, [SaveManifest(ManifestOf(st1))]);
      FlushKeepsMap(st0, cfg);
      FlushMemTable();
      ValidLevels();
      SaveVersion();
      closed := true;
      assert (t0 + first) + [SaveManifest(ManifestOf(st1))] == t0 + (first + [SaveManifest(ManifestOf(st1))]);
    }

    // ---- Open ----

    /**
     * DB::Open on a directory that represents a recoverable one: the store starts from exactly the state
     * recovery defines, and its file operations are the ones recovery was proved safe for.
     */
    static method Open(cfg: Config, found: RawDisk, order: seq<nat>, createIfMissing: bool, errorIfExists: bool,
                       ghost d: Disk, ghost st0: State) returns (r: OpenResult)
      requires ConfigOk(cfg) && Rep(found, d) && Holds(d, st0) && Inv(st0)
      requires forall n :: n in found.files <==> n in order
      ensures r.InvalidArgument? <==> !found.created && !createIfMissing
      ensures r.AlreadyExists? <==> found.created && errorIfExists
      ensures r.Opened? ==>
                fresh(r.db) && fresh(r.db.memtable) && fresh(r.db.version) && r.db.Valid() && r.db.cfg == cfg &&
                r.db.st == st0 && r.db.origin == found && r.db.trace == OpenEffects(d, order) &&
                !r.db.closing && !r.db.closed && !r.db.requested
    {
      hide Inv, Aligned, RawApplyAll, Holds, Rep, LiveMetas, Sweep, ManifestOf;
      RepCreated(found, d);
      if !found.created {
        if !createIfMissing { return InvalidArgument; }
      } else if errorIfExists {
        return AlreadyExists;
      }
      var db := new DB.Empty(cfg, found);
      ghost var a: seq<Effect> := if d.created then [] else [CreateDir];
      RawNothing(found);
      if !found.created {
        db.Do(CreateDir, db.disk.(created := true));
      }
      assert db.trace == a;
      ghost var d1 := ApplyAll(d, a);
      OpenStart(found, d, st0);
      RawStart(found, d, db.disk);
      db.LoadVersion(d1, st0);
      var live := LiveMetas(Manifest(db.version.nextFileNumber, db.version.levels));
      ghost var d2 := db.SweepFiles(order, live, d1, st0);
      db.OpenReaders(d2, st0);
      db.ReplayLog(d2, st0);
      db.OpenLogAndSave(found.created, d, d2, st0, order);
      r := Opened(db);
    }

    static lemma RepCreated(r: RawDisk, d: Disk)
      requires Rep(r, d)
      ensures r.created == d.created && (r.log == None <==> d.log == None)
    {
      hide RepFile, RepLog, Manifests.Encode, ManifestFits;
    }

    static lemma RawNothing(r: RawDisk)
      ensures RawApplyAll(r, []) == r
    {
    }

    static lemma OpenStart(found: RawDisk, d: Disk, st0: State)
      requires Rep(found, d) && Holds(d, st0)
      ensures var a := if d.created then [] else [CreateDir];
              ApplyAll(d, a) == d.(created := true) && Holds(ApplyAll(d, a), st0)
    {
      hide Rep, FilesOnDisk, MemReplay, ManifestOf;
      ApplyAllNone(d);
      ApplyAllOne(d, CreateDir);
    }

    static lemma RawStart(found: RawDisk, d: Disk, disk: RawDisk)
      requires Rep(found, d) && (disk == found.(created := true) || (d.created && disk == found))
      ensures Rep(disk, d.(created := true))
    {
      hide RepFile, RepLog, Manifests.Encode, ManifestFits;
    }

    /** The manifest, if there is one; otherwise the version stays the initial one. */
    method LoadVersion(ghost d: Disk, ghost st0: State)
      requires Rep(disk, d) && Holds(d, st0) && version.View() == INITIAL
      modifies version
      ensures version.View() == ManifestOf(st0)
    {
      hide RepFile, RepLog, Manifests.Encode, Manifests.Decode, ManifestFits, FilesOnDisk, MemReplay, ManifestOf;
      if d.manifest.Some? { ManifestRoundTrip(d.manifest.value); }
      var s := version.Load(disk.manifest);
    }

    /** Removes one table file that the manifest does not name. */
    method RemoveDead(n: nat, ghost d: Disk, ghost st0: State)
      requires Rep(disk, d) && Holds(d, st0) && n !in LiveMetas(ManifestOf(st0))
      requires disk == RawApplyAll(origin, trace)
      modifies this`disk, this`trace
      ensures Rep(disk, Apply(d, RemoveTable(n))) && Holds(Apply(d, RemoveTable(n)), st0)
      ensures trace == old(trace) + [RemoveTable(n)] && disk == RawApplyAll(origin, trace)
      ensures disk.log == old(disk.log)
    {
      hide Rep, Holds, LiveMetas, ManifestOf, RawApplyAll, Apply;
      ghost var e := RemoveTable(n);
      HarmlessKeepsState(d, st0, e, Done);
      TornDone(d, e);
      RepWhole(disk, d, e);
      Do(e, disk.(files := disk.files - {n}));
    }

    /** Removes every table file that the manifest does not name. */
    method SweepFiles(order: seq<nat>, live: set<nat>, ghost d1: Disk, ghost st0: State) returns (ghost d2: Disk)
      requires Rep(disk, d1) && Holds(d1, st0) && live == LiveMetas(ManifestOf(st0))
      requires disk == RawApplyAll(origin, trace)
      modifies this`disk, this`trace
      ensures Rep(disk, d2) && Holds(d2, st0) && d2 == ApplyAll(d1, Sweep(order, live))
      ensures trace == old(trace) + Sweep(order, live) && disk == RawApplyAll(origin, trace)
      ensures disk.log == old(disk.log)
    {
      hide Rep, Holds, LiveMetas, ManifestOf, RawApplyAll, Sweep, Apply, ApplyAll, RawApply;
      ghost var t0, done := trace, [];
      d2 := d1;
      var i := 0;
      assert order[0..] == order && done + Sweep(order, live) == Sweep(order, live) && t0 + done == t0;
      ApplyAllNone(d1);
      while i < |order|
        invariant 0 <= i <= |order|
        invariant Sweep(order, live) == done + Sweep(order[i..], live)
        invariant Rep(disk, d2) && Holds(d2, st0) && d2 == ApplyAll(d1, done)
        invariant trace == t0 + done && disk == RawApplyAll(origin, trace) && disk.log == old(disk.log)
      {
        ghost var n, rest := order[i], Sweep(order[i + 1..], live);
        SweepUnfold(order[i..], live);
        assert order[i..][0] == n && order[i..][1..] == order[i + 1..];
        if order[i] !in live {
          ghost var e := RemoveTable(n);
          RemoveDead(order[i], d2, st0);
          ApplyAllAppend(d1, done, [e]);
          ApplyAllOne(d2, e);
          d2 := Apply(d2, e);
          assert done + ([e] + rest) == (done + [e]) + rest;
          assert (t0 + done) + [e] == t0 + (done + [e]);
          done := done + [e];
        }
        i := i + 1;
      }
      SweepUnfold(order[i..], live);
      assert done + [] == done;
    }

    static lemma SweepUnfold(order: seq<nat>, live: set<nat>)
      ensures order == [] ==> Sweep(order, live) == []
      ensures order != [] ==>
        Sweep(order, live) == if order[0] in live then Sweep(order[1..], live)
            else [RemoveTable(order[0])] + Sweep(order[1..], live)
    {
    }

    /** A reader for every table the manifest names. */
    method OpenReaders(ghost d: Disk, ghost st0: State)
      requires Rep(disk, d) && Holds(d, st0) && version.View() == ManifestOf(st0)
      modifies this`readers
      ensures Aligned(readers, st0.levels)
    {
      hide Rep, Holds, Serves, ServesLevel;
      HoldsLevels(d, st0);
      readers := [];
      var lvl := 0;
      while lvl < MAX_LEVELS
        invariant 0 <= lvl <= MAX_LEVELS && |readers| == lvl
        invariant forall l :: 0 <= l < lvl ==> ServesLevel(readers[l], st0.levels[l])
      {
        var rs := OpenLevel(version.levels[lvl], d, st0, lvl);
        readers := readers + [rs];
        lvl := lvl + 1;
      }
    }

    static lemma HoldsLevels(d: Disk, st0: State)
      requires Holds(d, st0)
      ensures |st0.levels| == MAX_LEVELS
    {
      hide FilesOnDisk, MemReplay, ManifestOf;
    }

    method OpenLevel(metas: seq<FileMeta>, ghost d: Disk, ghost st0: State, ghost lvl: nat)
            returns (rs: seq<SSTableReader>)
      requires Rep(disk, d) && Holds(d, st0) && lvl < |st0.levels| && metas == Metas(st0.levels[lvl])
      ensures ServesLevel(rs, st0.levels[lvl])
    {
      hide Rep, Holds, SSTable.Open, SSTable.EncodeTable, SSTable.TableFits, SSTable.IndexOf, SSTable.FilterOf;
      ghost var files := st0.levels[lvl];
      rs := [];
      var i := 0;
      while i < |metas|
        invariant 0 <= i <= |metas| && |rs| == i
        invariant forall k :: 0 <= k < i ==> Serves(rs[k], files[k])
      {
        FileBytes(disk, d, st0, lvl, i);
        SSTable.OpenWritten(files[i].entries, files[i].params);
        var reader := OpenReader(disk.files[metas[i].number]);
        rs := rs + [reader.value];
        i := i + 1;
      }
    }

    static lemma FileBytes(r: RawDisk, d: Disk, st0: State, l: nat, i: nat)
      requires Rep(r, d) && Holds(d, st0) && l < |st0.levels| && i < |st0.levels[l]|
      ensures var f := st0.levels[l][i];
              f.meta.number in r.files && r.files[f.meta.number] == SSTable.EncodeTable(f.entries, f.params) &&
              SSTable.TableFits(f.entries, f.params)
    {
      hide SSTable.TableFits, SSTable.EncodeTable, RepLog, Manifests.Encode, ManifestFits, MemReplay, ManifestOf;
      assert OnDisk(st0.levels[l][i], d.files);
      assert RepFile(r.files[st0.levels[l][i].meta.number], d.files[st0.levels[l][i].meta.number]);
    }

    /** Replays the log into the memtable; the status of each record's iteration is dropped. */
    method ReplayLog(ghost d: Disk, ghost st0: State)
      requires Rep(disk, d) && Holds(d, st0) && memtable.View() == EMPTY
      modifies memtable
      ensures memtable.View() == st0.mem
    {
      hide Rep, Holds, Wal.Replay, EncodeOps, MemApply, MemReplay;
      LogIs(disk, d, st0);
      ghost var batches := Records(d);
      var records := Wal.ReplayAll(disk.log);
      var i := 0;
      assert batches[..0] == [];
      ReplayNone();
      while i < |records|
        invariant 0 <= i <= |records| == |batches|
        invariant memtable.View() == MemReplay(EMPTY, batches[..i])
      {
        assert BatchEncodable(batches[i]);
        var ok := ApplyReplayed(batches[i], records[i], memtable);
        assert batches[..i + 1] == batches[..i] + [batches[i]];
        MemReplaySnoc(EMPTY, batches[..i], batches[i]);
        i := i + 1;
      }
      assert batches[..i] == batches;
    }

    static lemma ReplayNone()
      ensures MemReplay(EMPTY, []) == EMPTY
    {
    }

    static lemma LogIs(r: RawDisk, d: Disk, st0: State)
      requires Rep(r, d) && Holds(d, st0)
      ensures (r.log == None ==> Records(d) == []) &&
              (r.log.Some? ==> Wal.Replay(r.log.value).0 == EncodeAll(Records(d)))
      ensures forall i :: 0 <= i < |Records(d)| ==> BatchEncodable(Records(d)[i])
      ensures st0.mem == MemReplay(EMPTY, Records(d))
    {
      hide Wal.Replay, EncodeOps, BatchEncodable, RepFile, Manifests.Encode, ManifestFits, FilesOnDisk, MemReplay,
        ManifestOf;
    }

    /** Opens the log for appending, and saves the manifest of a directory that was just created. */
    method OpenLogAndSave(existed: bool, ghost d: Disk, ghost d2: Disk, ghost st0: State, ghost order: seq<nat>)
      requires existed == d.created && ConfigOk(cfg) && Inv(st0) && Holds(d, st0) && Holds(d2, st0)
      requires Aligned(readers, st0.levels) && memtable.View() == st0.mem && version.View() == ManifestOf(st0)
      requires trace == (if d.created then [] else [CreateDir]) + Sweep(order, LiveMetas(ManifestOf(st0)))
      requires (disk.log == None <==> d.log == None) && disk == RawApplyAll(origin, trace)
      modifies this`disk, this`trace, this`st
      ensures Valid() && st == st0 && trace == OpenEffects(d, order)
    {
      hide Manifests.Encode;
      hide Inv, Aligned, RawApplyAll, Sweep, LiveMetas, FilesOnDisk, MemReplay, ManifestOf;
      ghost var t0 := trace;
      ManifestLevels(st0);
      ghost var c: seq<Effect> := if d.log == None then [CreateLog] else [];
      if disk.log == None {
        Do(CreateLog, disk.(log := Some([])));
      }
      assert trace == t0 + c;
      if !existed { SaveVersion(); }
      st := st0;
      assert (t0 + c) + [] == t0 + c;
    }

    static lemma ManifestLevels(st0: State)
      ensures |ManifestOf(st0).levels| == |st0.levels|
    {
    }
  }

  /**
   * Any process that opens what any run has left behind, with any options, gets an error exactly where the options
   * ask for one; otherwise Get and NewIterator answer with the map of the run's history.
   */
  method Reopen(cfg: Config, found: RawDisk, order: seq<nat>, createIfMissing: bool, errorIfExists: bool, key: Bytes,
                ghost steps: seq<RawStep>)
    returns (ok: bool, value: GetResult, snapshot: Plain)
    requires ConfigOk(cfg) && RawLegal(Down(NO_DISK), steps)
    requires found == RawRun(Down(NO_DISK), NO_RAW_DISK, steps) && forall n :: n in found.files <==> n in order
    ensures ok <==> !Refuses(found.created, createIfMissing, errorIfExists)
    ensures ok ==>
              var abs := AbsSteps(Down(NO_DISK), steps);
              var hist := Run(Down(NO_DISK), [], abs).1;
              var m := UserMap(hist);
              Written(hist, Down(NO_DISK), abs) && snapshot == m &&
              value == if key in m then Found(m[key]) else NotThere
  {
    hide Rep, RawRun, RawLegal, AbsSteps, Run, Written, Inv, Abs, Holds, PlainApplyAll;
    ghost var d, st0 := DirectoryReached(steps);
    var r := DB.Open(cfg, found, order, createIfMissing, errorIfExists, d, st0);
    match r {
      case Opened(db) =>
        value := db.Get(key);
        snapshot := db.NewIterator();
        ok := true;
      case _ =>
        ok, value, snapshot := false, NotThere, map[];
    }
  }
}
