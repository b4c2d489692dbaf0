/** Flushing and compacting keep the invariant and the user's map; the compaction loop ends. */
module Compaction {
  import opened Bytes
  import opened Kv
  import opened MemTables
  import opened Manifests
  import opened Engine
  import opened Levels
  import SSTable

  // ---- Compaction output is a partition ----

  function Flatten(batches: seq<seq<Entry>>): seq<Entry> {
    if batches == [] then [] else batches[0] + Flatten(batches[1..])
  }

  function SumBytes(es: seq<Entry>): nat {
    if es == [] then 0 else EntryBytes(es[0]) + SumBytes(es[1..])
  }

  lemma {:induction false} SumBytesSnoc(es: seq<Entry>, e: Entry)
    ensures SumBytes(es + [e]) == SumBytes(es) + EntryBytes(e)
  {
    hide EntryBytes;
    if es == [] {
      assert es + [e] == [e] && [e][1..] == [];
      assert SumBytes([e]) == EntryBytes(e) + SumBytes([]);
    } else {
      assert (es + [e])[1..] == es[1..] + [e];
      SumBytesSnoc(es[1..], e);
    }
  }

  lemma {:induction false} SplitFlattens(batch: seq<Entry>, bytes: nat, es: seq<Entry>, cap: nat)
    ensures Flatten(Split(batch, bytes, es, cap)) == batch + es
    decreases |es|
  {
    hide EntryBytes;
    if es == [] {
      assert batch != [] ==> [batch][1..] == [];
      assert batch != [] ==> Flatten([batch]) == batch + Flatten([]);
    } else {
      var batch', bytes' := batch + [es[0]], bytes + EntryBytes(es[0]);
      SplitFlattens([], 0, es[1..], cap);
      SplitFlattens(batch', bytes', es[1..], cap);
      assert batch' + es[1..] == batch + es;
      assert [] + es[1..] == es[1..];
      if bytes' >= cap {
        assert ([batch'] + Split([], 0, es[1..], cap))[1..] == Split([], 0, es[1..], cap);
      }
    }
  }

  ghost predicate CutAt(batch: seq<Entry>, cap: nat, last: bool) {
    batch != [] && SumBytes(batch[..|batch| - 1]) < cap && (last || SumBytes(batch) >= cap)
  }

  ghost predicate AllCut(batches: seq<seq<Entry>>, cap: nat) {
    forall i :: 0 <= i < |batches| ==> CutAt(batches[i], cap, i == |batches| - 1)
  }

  lemma AllCutCons(batch: seq<Entry>, more: seq<seq<Entry>>, cap: nat)
    requires CutAt(batch, cap, false) && AllCut(more, cap)
    ensures AllCut([batch] + more, cap)
  {
    hide SumBytes;
    var r := [batch] + more;
    forall i | 0 <= i < |r|
      ensures CutAt(r[i], cap, i == |r| - 1)
    {
      if i > 0 { assert CutAt(more[i - 1], cap, i - 1 == |more| - 1); }
    }
  }

  /** Every output but the last reaches the cap, and none would reach it without its final entry. */
  lemma {:induction false} SplitCuts(batch: seq<Entry>, bytes: nat, es: seq<Entry>, cap: nat)
    requires bytes == SumBytes(batch) < cap
    requires batch != [] ==> SumBytes(batch[..|batch| - 1]) < cap
    ensures AllCut(Split(batch, bytes, es, cap), cap)
    decreases |es|
  {
    hide EntryBytes, SumBytes;
    if es != [] {
      var batch', bytes' := batch + [es[0]], bytes + EntryBytes(es[0]);
      SumBytesSnoc(batch, es[0]);
      assert batch'[..|batch'| - 1] == batch;
      NoBytes();
      if bytes' >= cap {
        SplitCuts([], 0, es[1..], cap);
        AllCutCons(batch', Split([], 0, es[1..], cap), cap);
      } else {
        SplitCuts(batch', bytes', es[1..], cap);
      }
    }
  }

  lemma NoBytes()
    ensures SumBytes([]) == 0
  {
  }

  /** Concatenating the files a compaction writes gives back the merged entries, and each is cut at the cap. */
  lemma OutputIsPartition(st: State, level: nat, cfg: Config)
    requires |st.levels| == MAX_LEVELS && level + 1 < MAX_LEVELS
    ensures var files := Compact(st, level, cfg).0.levels[level + 1];
            AllEntries(files) == MergedEntries(st.levels, level) &&
            forall i :: 0 <= i < |files| ==> CutAt(files[i].entries, OutputCap(cfg), i == |files| - 1)
  {
    hide MergedEntries, Split, SumBytes, NewFile, ManifestOf, SSTable.EncodeTable;
    var es := MergedEntries(st.levels, level);
    var cap := OutputCap(cfg);
    var batches := Split([], 0, es, cap);
    NoBytes();
    SplitFlattens([], 0, es, cap);
    SplitCuts([], 0, es, cap);
    SplitNonEmpty([], 0, es, cap);
    NewFilesEntries(st.next, batches, cfg.filter);
    assert [] + es == es;
    var files := Compact(st, level, cfg).0.levels[level + 1];
    assert files == NewFiles(st.next, batches, cfg.filter);
    forall i | 0 <= i < |files|
      ensures CutAt(files[i].entries, cap, i == |files| - 1)
    {
      assert CutAt(batches[i], cap, i == |batches| - 1);
      NewFileParts(st.next + i, batches[i], cfg.filter);
    }
  }

  lemma NewFileParts(number: nat, es: seq<Entry>, p: SSTable.FilterParams)
    requires es != []
    ensures var f := NewFile(number, es, p); f.entries == es && f.meta.number == number && f.params == p
  {
  }

  lemma {:induction false} NewFilesEntries(number: nat, batches: seq<seq<Entry>>, p: SSTable.FilterParams)
    requires forall i :: 0 <= i < |batches| ==> batches[i] != []
    ensures AllEntries(NewFiles(number, batches, p)) == Flatten(batches)
    decreases |batches|
  {
    hide NewFile;
    var files := NewFiles(number, batches, p);
    if batches != [] {
      NewFileParts(number, batches[0], p);
      assert files[1..] == NewFiles(number + 1, batches[1..], p);
      NewFilesEntries(number + 1, batches[1..], p);
    }
  }

  // ---- Dropping tombstones at the bottom ----

  /** m' is m without some of its tombstones. */
  ghost predicate Drops(m: Kv.Table, m': Kv.Table) {
    (forall k :: k in m' ==> k in m && m[k] == m'[k]) &&
    (forall k :: k in m && k !in m' ==> m[k] == Tombstone)
  }

  lemma DropsUnder(m: Kv.Table, m': Kv.Table, over: Kv.Table)
    requires Drops(m, m')
    ensures Drops(m + over, m' + over)
  {
  }

  lemma DropsInvisible(m: Kv.Table, m': Kv.Table)
    requires Drops(m, m')
    ensures Visible(m) == Visible(m')
  {
  }

  lemma {:induction false} DropTombstonesMembers(es: seq<Entry>)
    ensures NoTombstone(DropTombstones(es))
    ensures forall e :: e in DropTombstones(es) ==> e in es
  {
    if es != [] { DropTombstonesMembers(es[1..]); }
  }

  lemma {:induction false} DropTombstonesSorted(es: seq<Entry>)
    requires SortedEntries(es)
    ensures SortedEntries(DropTombstones(es))
    ensures Drops(TableOf(es), TableOf(DropTombstones(es)))
  {
    hide Less, TableOf;
    if es == [] {
      TableOfNone();
    } else {
      var kept := DropTombstones(es[1..]);
      assert es == [es[0]] + es[1..];
      SortedParts([es[0]], es[1..]);
      DropTombstonesSorted(es[1..]);
      DropTombstonesMembers(es[1..]);
      TableOfHead(es);
      TableOfOne(es[0]);
      if es[0].val.Live? {
        var r := [es[0]] + kept;
        assert r[1..] == kept;
        TableOfHead(r);
        forall i, j | 0 <= i < j < |r|
          ensures Less(Keys(r)[i], Keys(r)[j])
        {
          if i == 0 {
            assert kept[j - 1] in es[1..];
            var n :| 0 <= n < |es[1..]| && es[1..][n] == kept[j - 1];
            assert Less([es[0]][0].key, es[1..][n].key);
          } else {
            assert Keys(kept)[i - 1] == Keys(r)[i] && Keys(kept)[j - 1] == Keys(r)[j];
          }
        }
      }
    }
  }

  // ---- One compaction keeps the meaning ----

  /** Replacing two adjacent levels by their merge changes nothing. */
  lemma {:induction false} MergeKeeps(levels: seq<Level>, level: nat, files: Level)
    requires level + 1 < |levels|
    requires FilesMap(files) == FilesMap(levels[level + 1]) + FilesMap(levels[level])
    ensures LevelsMap(levels[level := []][level + 1 := files]) == LevelsMap(levels)
    decreases level
  {
    hide FilesMap;
    var levels' := levels[level := []][level + 1 := files];
    if level == 0 {
      FilesMapNone();
      assert levels'[1..][1..] == levels[1..][1..];
      assert LevelsMap(levels[1..]) == LevelsMap(levels[1..][1..]) + FilesMap(levels[1]);
      assert LevelsMap(levels'[1..]) == LevelsMap(levels[1..][1..]) + FilesMap(files);
    } else {
      assert levels'[1..] == levels[1..][level - 1 := []][level := files];
      MergeKeeps(levels[1..], level - 1, files);
    }
  }

  /** At the bottom the merge may also lose tombstones. */
  lemma {:induction false} BottomMergeDrops(levels: seq<Level>, level: nat, files: Level)
    requires level + 2 == |levels|
    requires Drops(FilesMap(levels[level + 1]) + FilesMap(levels[level]), FilesMap(files))
    ensures Drops(LevelsMap(levels), LevelsMap(levels[level := []][level + 1 := files]))
    decreases level
  {
    hide FilesMap, Drops;
    var levels' := levels[level := []][level + 1 := files];
    if level == 0 {
      FilesMapNone();
      assert levels'[1..][1..] == levels[1..][1..] == [];
      assert LevelsMap(levels[1..]) == map[] + FilesMap(levels[1]) == FilesMap(levels[1]);
      assert LevelsMap(levels'[1..]) == map[] + FilesMap(files) == FilesMap(files);
      assert FilesMap(files) + map[] == FilesMap(files);
    } else {
      assert levels'[1..] == levels[1..][level - 1 := []][level := files];
      BottomMergeDrops(levels[1..], level - 1, files);
      DropsUnder(LevelsMap(levels[1..]), LevelsMap(levels'[1..]), FilesMap(levels[0]));
    }
  }

  /** The merge order of the code yields the upper level over the lower one. */
  lemma MergedMap(st: State, level: nat)
    requires Inv(st) && level + 1 < MAX_LEVELS
    ensures var merged := FilesMap(st.levels[level + 1]) + FilesMap(st.levels[level]);
            var es := MergedEntries(st.levels, level);
            SortedEntries(es) &&
            (level + 1 < MAX_LEVELS - 1 ==> TableOf(es) == merged) &&
            (level + 1 == MAX_LEVELS - 1 ==> Drops(merged, TableOf(es)) && NoTombstone(es))
  {
    hide FilesMap, TableOf, Entries, DropTombstones, SortedEntries, Drops, FilesOk, NoTombstone, Ascending;
    var newer := if level == 0 then OldestFirst(st.levels[0]) else Reverse(st.levels[level]);
    if level == 0 { AscendingIsOldestFirst(st.levels[0]); } else { FilesMapReverse(st.levels[level]); }
    FilesMapAppend(st.levels[level + 1], newer);
    var merged := FilesMap(st.levels[level + 1] + newer);
    TableOfEntries(merged);
    DropTombstonesSorted(Entries(merged));
    DropTombstonesMembers(Entries(merged));
  }

  /** A compaction leaves the user's map alone, and above the bottom even every tombstone. */
  lemma CompactKeepsMap(st: State, level: nat, cfg: Config)
    requires Inv(st)
    ensures var st' := Compact(st, level, cfg).0;
            Abs(st') == Abs(st) && st'.mem == st.mem &&
            (level + 2 < MAX_LEVELS ==> Contents(st') == Contents(st))
  {
    hide FilesMap, TableOf, MergedEntries, Drops, Visible, LevelsMap, Split, NewFiles, ManifestOf, LevelsOk,
      SortedEntries, NoTombstone;
    InvLevels(st);
    if level + 1 < MAX_LEVELS {
      var st' := Compact(st, level, cfg).0;
      var files := st'.levels[level + 1];
      MergedMap(st, level);
      OutputIsPartition(st, level, cfg);
      FilesMapDef(files);
      if level + 2 < MAX_LEVELS {
        MergeKeeps(st.levels, level, files);
      } else {
        BottomMergeDrops(st.levels, level, files);
        DropsUnder(LevelsMap(st.levels), LevelsMap(st'.levels), st.mem.table);
        DropsInvisible(Contents(st), Contents(st'));
      }
    }
  }

  /** Get and the iterator answer the same before and after a compaction of any level. */
  lemma CompactKeepsReads(st: State, level: nat, key: Bytes, cfg: Config)
    requires Inv(st)
    ensures |st.levels| == MAX_LEVELS
    ensures var st' := Compact(st, level, cfg).0; Get(st', key) == Get(st, key) && Snapshot(st') == Snapshot(st)
  {
    hide Inv, Abs, Get, Snapshot, Compact;
    InvLevels(st);
    CompactKeepsMap(st, level, cfg);
    CompactKeepsInv(st, level, cfg);
    GetIsAbs(st, key);
    GetIsAbs(Compact(st, level, cfg).0, key);
    SnapshotIsAbs(st);
    SnapshotIsAbs(Compact(st, level, cfg).0);
  }

  // ---- One compaction keeps the invariant ----

  lemma {:induction false} SortedPieces(files: Level)
    requires SortedEntries(AllEntries(files))
    ensures forall i :: 0 <= i < |files| ==> SortedEntries(files[i].entries)
  {
    hide SortedEntries, TableOf;
    if files != [] {
      SortedParts(files[0].entries, AllEntries(files[1..]));
      SortedPieces(files[1..]);
      assert forall i :: 0 < i < |files| ==> files[i] == files[1..][i - 1];
    }
  }

  lemma FilesOkLater(files: Level, next: nat, next': nat)
    requires FilesOk(files, next) && next <= next'
    ensures FilesOk(files, next')
  {
    hide SortedEntries, MetaOf;
    forall i | 0 <= i < |files|
      ensures FileOk(files[i], next')
    {
      assert FileOk(files[i], next);
    }
  }

  lemma NumbersBelow(files: Level, next: nat)
    requires FilesOk(files, next)
    ensures forall n :: n in Numbers(files) ==> n < next
  {
    hide SortedEntries, MetaOf;
    forall n | n in Numbers(files)
      ensures n < next
    {
      var i :| 0 <= i < |files| && files[i].meta.number == n;
      assert FileOk(files[i], next);
    }
  }

  /** The new files of a compaction are well formed and carry only fresh numbers. */
  lemma NewFilesOk(st: State, level: nat, cfg: Config)
    requires Inv(st) && level + 1 < MAX_LEVELS
    ensures var st' := Compact(st, level, cfg).0;
            var files := st'.levels[level + 1];
            FilesOk(files, st'.next) && st'.next >= st.next &&
            SortedEntries(AllEntries(files)) &&
            (level + 1 == MAX_LEVELS - 1 ==> NoTombstone(AllEntries(files))) &&
            (forall n :: n in Numbers(files) ==> n >= st.next)
  {
    hide SortedEntries, MergedEntries, Split, MetaOf, TableOf, FilesMap, LevelsOk, ManifestOf, Drops, NoTombstone,
      CutAt;
    InvLevels(st);
    var st' := Compact(st, level, cfg).0;
    var files := st'.levels[level + 1];
    MergedMap(st, level);
    OutputIsPartition(st, level, cfg);
    SortedPieces(files);
    var batches := Split([], 0, MergedEntries(st.levels, level), OutputCap(cfg));
    SplitNonEmpty([], 0, MergedEntries(st.levels, level), OutputCap(cfg));
    assert files == NewFiles(st.next, batches, cfg.filter);
    forall i | 0 <= i < |files|
      ensures FileOk(files[i], st'.next) && files[i].meta.number == st.next + i
    {
      NewFileIs(st.next + i, batches[i], cfg.filter);
    }
  }

  lemma NewFileIs(number: nat, es: seq<Entry>, p: SSTable.FilterParams)
    requires es != []
    ensures var f := NewFile(number, es, p);
            f.meta == MetaOf(number, es, p) && f.entries == es && f.params == p && f.meta.number == number
  {
    hide SSTable.EncodeTable;
  }

  lemma CompactKeepsInv(st: State, level: nat, cfg: Config)
    requires Inv(st)
    ensures Inv(Compact(st, level, cfg).0)
  {
    hide SortedEntries, MergedEntries, Split, MetaOf, FilesOk, NoTombstone, Numbers, NewFiles, ManifestOf, AllEntries,
      Ascending;
    if level + 1 < MAX_LEVELS {
      var st' := Compact(st, level, cfg).0;
      NewFilesOk(st, level, cfg);
      EmptyLevelOk(st'.next);
      forall l | 0 <= l < MAX_LEVELS
        ensures FilesOk(st'.levels[l], st'.next)
        ensures l >= 1 ==> SortedEntries(AllEntries(st'.levels[l]))
      {
        if l != level && l != level + 1 { FilesOkLater(st.levels[l], st.next, st'.next); }
      }
      forall k, l | 0 <= k < l < MAX_LEVELS
        ensures Numbers(st'.levels[k]) !! Numbers(st'.levels[l])
      {
        NumbersBelow(st.levels[k], st.next);
        NumbersBelow(st.levels[l], st.next);
      }
    }
  }

  lemma EmptyLevelOk(next: nat)
    ensures FilesOk([], next) && SortedEntries(AllEntries([])) && NoTombstone(AllEntries([])) && Numbers([]) == {} &&
            Ascending([])
  {
  }

  /** From level 1 down the recorded ranges of a level's files are disjoint and ascend. */
  lemma RangesAscend(st: State, l: nat, i: nat, j: nat)
    requires Inv(st) && 1 <= l < MAX_LEVELS && i < j < |st.levels[l]|
    ensures Less(st.levels[l][i].meta.maxKey, st.levels[l][j].meta.minKey)
    ensures LessEq(st.levels[l][i].meta.minKey, st.levels[l][i].meta.maxKey)
  {
    hide Less, SortedEntries, SSTable.EncodeTable, NoTombstone, Ascending, Numbers;
    var files := st.levels[l];
    assert FileOk(files[i], st.next) && FileOk(files[j], st.next);
    LevelRanges(files, i, j);
    FirstToLast(files[i].entries);
  }

  lemma FirstToLast(es: seq<Entry>)
    requires SortedEntries(es) && es != []
    ensures LessEq(es[0].key, es[|es| - 1].key)
  {
    hide Less;
    var ks := Keys(es);
    if |es| > 1 { assert Less(ks[0], ks[|es| - 1]); }
  }

  lemma {:induction false} LevelRanges(files: Level, i: nat, j: nat)
    requires SortedEntries(AllEntries(files)) && i < j < |files| && files[i].entries != [] && files[j].entries != []
    ensures Less(files[i].entries[|files[i].entries| - 1].key, files[j].entries[0].key)
    decreases i
  {
    hide Less, SortedEntries, TableOf;
    var rest := files[1..];
    SortedParts(files[0].entries, AllEntries(rest));
    if i > 0 {
      LevelRanges(rest, i - 1, j - 1);
    } else {
      var n := EntryPosition(rest, j - 1);
      assert AllEntries(rest)[n] == files[j].entries[0];
    }
  }

  /** Where a file's first entry lies in its level. */
  lemma {:induction false} EntryPosition(files: Level, j: nat) returns (n: nat)
    requires j < |files| && files[j].entries != []
    ensures n < |AllEntries(files)| && AllEntries(files)[n] == files[j].entries[0]
    decreases j
  {
    if j == 0 {
      n := 0;
    } else {
      var m := EntryPosition(files[1..], j - 1);
      n := |files[0].entries| + m;
    }
  }

  // ---- Flush ----

  /** A flush moves the memtable into the newest L0 file: the contents, tombstones included, stay the same. */
  lemma FlushKeepsMap(st: State, cfg: Config)
    requires Inv(st)
    ensures var st' := Flush(st, cfg).0;
            Contents(st') == Contents(st) && Abs(st') == Abs(st) && st'.mem.table == map[] &&
            LevelsMap(st'.levels) == Contents(st)
  {
    hide FilesMap, TableOf, Entries, MetaOf, ManifestOf, LevelsOk, Visible;
    InvLevels(st);
    if st.mem.table == map[] {
      assert Contents(st) == LevelsMap(st.levels);
    } else {
      var st' := Flush(st, cfg).0;
      var es := Entries(st.mem.table);
      EntriesNonEmpty(st.mem.table);
      var f := NewFile(st.next, es, cfg.filter);
      NewFileParts(st.next, es, cfg.filter);
      FilesMapAppend(st.levels[0], [f]);
      FilesMapOne(f);
      TableOfEntries(st.mem.table);
      assert st'.levels[1..] == st.levels[1..];
      assert Contents(st') == LevelsMap(st'.levels);
    }
  }

  lemma FlushKeepsInv(st: State, cfg: Config)
    requires Inv(st)
    ensures Inv(Flush(st, cfg).0)
  {
    hide SortedEntries, Entries, MetaOf, NoTombstone, AllEntries, ManifestOf, NewFile, SSTable.EncodeTable;
    if st.mem.table != map[] {
      var st' := Flush(st, cfg).0;
      var es := Entries(st.mem.table);
      EntriesNonEmpty(st.mem.table);
      EntriesSorted(st.mem.table);
      NewFileIs(st.next, es, cfg.filter);
      var f := NewFile(st.next, es, cfg.filter);
      forall l | 0 <= l < MAX_LEVELS
        ensures FilesOk(st'.levels[l], st'.next)
      {
        FilesOkLater(st.levels[l], st.next, st'.next);
      }
      NumbersBelow(st.levels[0], st.next);
      forall k, l | 0 <= k < l < MAX_LEVELS
        ensures Numbers(st'.levels[k]) !! Numbers(st'.levels[l])
      {
        NumbersBelow(st.levels[l], st.next);
        if k == 0 { NumbersSnoc(st.levels[0], f); }
      }
      forall i, j | 0 <= i < j < |st'.levels[0]|
        ensures st'.levels[0][i].meta.number < st'.levels[0][j].meta.number
      {
        if j == |st.levels[0]| { assert FileOk(st.levels[0][i], st.next); }
      }
    }
  }

  lemma EntriesSorted(m: Kv.Table)
    ensures SortedEntries(Entries(m))
  {
  }

  lemma NumbersSnoc(files: Level, f: File)
    ensures Numbers(files + [f]) == Numbers(files) + {f.meta.number}
  {
    var all := files + [f];
    forall n | n in Numbers(files) + {f.meta.number}
      ensures n in Numbers(all)
    {
      if n == f.meta.number {
        assert all[|files|].meta.number == n;
      } else {
        var i :| 0 <= i < |files| && files[i].meta.number == n;
        assert all[i].meta.number == n;
      }
    }
  }

  // ---- The loop ----

  lemma {:induction false} CompactAllKeeps(st: State, cfg: Config)
    requires Inv(st) && cfg.l0Trigger >= 1
    ensures var st' := CompactAll(st, cfg).0;
            Inv(st') && Abs(st') == Abs(st) && st'.mem == st.mem
    decreases Rank(st, cfg)
  {
    hide Compact, Inv, Abs;
    InvLevels(st);
    if NeedsCompaction(st, cfg).Some? {
      var level := NeedsCompaction(st, cfg).value;
      NextPickDeeper(st, level, cfg);
      CompactKeepsMap(st, level, cfg);
      CompactKeepsInv(st, level, cfg);
      CompactAllKeeps(Compact(st, level, cfg).0, cfg);
    }
  }

  lemma InvLevels(st: State)
    ensures Inv(st) ==> |st.levels| == MAX_LEVELS
  {
    hide FilesOk, SortedEntries, NoTombstone;
  }

  /** When the loop ends, L0 is below its trigger and no level from 1 to the last but one exceeds its target. */
  ghost predicate Settled(st: State, cfg: Config)
    requires |st.levels| == MAX_LEVELS
  {
    |st.levels[0]| < cfg.l0Trigger &&
    forall l :: 1 <= l < MAX_LEVELS - 1 ==> SumSizes(st.levels[l]) <= TargetOf(l, cfg)
  }

  /** The byte target of a level: level 1's times the factor per level, in 64-bit arithmetic. */
  function TargetOf(l: nat, cfg: Config): nat {
    if l <= 1 then cfg.level1Target % TWO_64 else TargetOf(l - 1, cfg) * Factor(cfg) % TWO_64
  }

  lemma {:induction false} PickNone(levels: seq<Level>, lvl: nat, cfg: Config)
    requires |levels| == MAX_LEVELS && 1 <= lvl
    ensures PickLevel(levels, lvl, TargetOf(lvl, cfg), cfg) == None <==>
            forall l :: lvl <= l < MAX_LEVELS - 1 ==> SumSizes(levels[l]) <= TargetOf(l, cfg)
    decreases MAX_LEVELS - lvl
  {
    hide SumSizes, Factor;
    if lvl < MAX_LEVELS - 1 { PickNone(levels, lvl + 1, cfg); }
  }

  lemma SettledIff(st: State, cfg: Config)
    requires |st.levels| == MAX_LEVELS
    ensures NeedsCompaction(st, cfg) == None <==> Settled(st, cfg)
  {
    hide SumSizes, Factor;
    PickNone(st.levels, 1, cfg);
  }

  lemma {:induction false} RoundsReach(st: State, n: nat, cfg: Config)
    requires |st.levels| == MAX_LEVELS && cfg.l0Trigger >= 1 && Rank(st, cfg) <= n
    ensures Rounds(st, n, cfg) == CompactAll(st, cfg).0
    ensures NeedsCompaction(CompactAll(st, cfg).0, cfg) == None
    decreases n
  {
    hide Compact, NeedsCompaction;
    if NeedsCompaction(st, cfg).Some? {
      var level := NeedsCompaction(st, cfg).value;
      NextPickDeeper(st, level, cfg);
      RankPositive(st, cfg);
      RoundsReach(Compact(st, level, cfg).0, n - 1, cfg);
    }
  }

  lemma RankPositive(st: State, cfg: Config)
    requires |st.levels| == MAX_LEVELS
    ensures NeedsCompaction(st, cfg).Some? ==> Rank(st, cfg) >= 1
    ensures Rank(st, cfg) <= MAX_LEVELS - 1
  {
    hide SumSizes;
  }

  lemma {:induction false} RoundsWithoutTrigger(st: State, n: nat, cfg: Config)
    requires |st.levels| == MAX_LEVELS && cfg.l0Trigger <= 0
    ensures NeedsCompaction(Rounds(st, n, cfg), cfg) == Some(0)
    decreases n
  {
    hide MergedEntries, Split;
    if n > 0 { RoundsWithoutTrigger(Compact(st, 0, cfg).0, n - 1, cfg); }
  }

  /**
   * The compaction loop ends if and only if the L0 trigger is at least 1. Then it takes at most MAX_LEVELS - 1
   * compactions, whatever the target arithmetic yields, and leaves every level settled.
   */
  lemma LoopEndsIff(st: State, cfg: Config)
    requires |st.levels| == MAX_LEVELS
    ensures (exists n: nat :: NeedsCompaction(Rounds(st, n, cfg), cfg) == None) <==> cfg.l0Trigger >= 1
    ensures cfg.l0Trigger >= 1 ==>
              Rounds(st, MAX_LEVELS - 1, cfg) == CompactAll(st, cfg).0 && Settled(CompactAll(st, cfg).0, cfg)
  {
    hide Compact, NeedsCompaction, Rounds, CompactAll, Rank, Settled;
    if cfg.l0Trigger >= 1 {
      RankPositive(st, cfg);
      RoundsReach(st, MAX_LEVELS - 1, cfg);
      SettledIff(CompactAll(st, cfg).0, cfg);
    } else {
      forall n: nat
        ensures NeedsCompaction(Rounds(st, n, cfg), cfg) == Some(0)
      {
        RoundsWithoutTrigger(st, n, cfg);
      }
    }
  }

  // ---- What the critical sections reach ----

  /** A flush adds one file to L0, the newest, which holds exactly the memtable; it leaves no estimate behind. */
  lemma FlushAddsNewest(st: State, cfg: Config)
    requires Inv(st) && st.mem.table != map[]
    ensures |st.levels| == MAX_LEVELS
    ensures var st' := Flush(st, cfg).0;
            st'.mem == EMPTY && st'.next == st.next + 1 && st'.levels[1..] == st.levels[1..] &&
            |st'.levels[0]| == |st.levels[0]| + 1 && st'.levels[0][..|st.levels[0]|] == st.levels[0] &&
            st'.levels[0][|st.levels[0]|].meta.number == st.next &&
            TableOf(st'.levels[0][|st.levels[0]|].entries) == st.mem.table
  {
    hide TableOf, Entries, MetaOf, ManifestOf, LevelsOk;
    InvLevels(st);
    EntriesNonEmpty(st.mem.table);
    NewFileParts(st.next, Entries(st.mem.table), cfg.filter);
    TableOfEntries(st.mem.table);
  }

  /** An empty memtable is not flushed. */
  lemma FlushOfNothing(st: State, cfg: Config)
    requires |st.levels| == MAX_LEVELS && st.mem.table == map[]
    ensures Flush(st, cfg) == (st, [])
  {
  }

  /** Flush and a background round leave no level above its limit, and an empty memtable. */
  lemma FlushSettles(st: State, cfg: Config)
    requires Inv(st) && cfg.l0Trigger >= 1
    ensures |st.levels| == MAX_LEVELS
    ensures var st' := FlushAndCompact(st, cfg).0;
            Settled(st', cfg) && st'.mem == if st.mem.table == map[] then st.mem else EMPTY
  {
    hide Inv, Flush, CompactAll, Settled, TableOf, FilesMap;
    InvLevels(st);
    if st.mem.table == map[] { FlushOfNothing(st, cfg); } else { FlushAddsNewest(st, cfg); }
    FlushKeepsInv(st, cfg);
    var st1 := Flush(st, cfg).0;
    LoopEndsIff(st1, cfg);
    CompactAllKeeps(st1, cfg);
  }

  /** A store that is already settled is not compacted. */
  lemma SettledStays(st: State, cfg: Config)
    requires |st.levels| == MAX_LEVELS && cfg.l0Trigger >= 1 && Settled(st, cfg)
    ensures CompactAll(st, cfg) == (st, [])
  {
    hide Settled, NeedsCompaction;
    SettledIff(st, cfg);
  }

  /**
   * The synchronous threshold: a memtable whose estimate has reached it is flushed, a smaller one is kept, and
   * either way no level is left above its limit. Below the threshold a settled store only keeps its memtable.
   */
  lemma MaybeFlushReaches(st: State, cfg: Config)
    requires Inv(st) && cfg.l0Trigger >= 1
    ensures |st.levels| == MAX_LEVELS
    ensures var st' := MaybeFlush(st, cfg).0;
            Settled(st', cfg) &&
            (st.mem.approx >= cfg.flushBytes && st.mem.table != map[] ==> st'.mem == EMPTY) &&
            (st.mem.approx < cfg.flushBytes ==> st'.mem == st.mem)
    ensures st.mem.approx < cfg.flushBytes && Settled(st, cfg) ==> MaybeFlush(st, cfg) == (st, [])
  {
    hide Inv, FlushAndCompact, CompactAll, Settled;
    InvLevels(st);
    FlushSettles(st, cfg);
    LoopEndsIff(st, cfg);
    CompactAllKeeps(st, cfg);
    if st.mem.approx < cfg.flushBytes && Settled(st, cfg) { SettledStays(st, cfg); }
  }

  /**
   * A write with a background thread logs and does nothing else to the directory. A synchronous one flushes the
   * memtable, the new batch in it, exactly when its estimate has reached the threshold.
   */
  lemma WriteReaches(st: State, b: Batch, cfg: Config)
    requires Inv(st) && cfg.l0Trigger >= 1 && b != []
    ensures |st.levels| == MAX_LEVELS
    ensures var (st', es) := Write(st, b, cfg);
            var m := MemApply(st.mem, b);
            (cfg.background ==> st' == State(m, st.next, st.levels) && es == [AppendLog(b)]) &&
            (!cfg.background ==> Settled(st', cfg) && st'.mem == if m.approx >= cfg.flushBytes then EMPTY else m) &&
            (!cfg.background && m.approx < cfg.flushBytes && Settled(st, cfg) ==>
               st' == State(m, st.next, st.levels) && es == [AppendLog(b)])
  {
    hide LevelsOk, MaybeFlush, MemApply, SumSizes, TargetOf;
    InvLevels(st);
    var st1 := Logged(st, b);
    MemApplyTable(st.mem, b);
    MaybeFlushReaches(st1, cfg);
  }

  // ---- The limits in the code's numbers ----

  function Power(base: nat, n: nat): nat {
    if n == 0 then 1 else base * Power(base, n - 1)
  }

  lemma TimesModulo(x: nat, f: nat)
    ensures x % TWO_64 * f % TWO_64 == x * f % TWO_64
  {
    var q, r := x / TWO_64, x % TWO_64;
    assert x * f == r * f + q * f * TWO_64 by {
      assert x == r + q * TWO_64;
      assert (r + q * TWO_64) * f == r * f + q * TWO_64 * f;
      assert q * TWO_64 * f == q * f * TWO_64;
    }
    AddMultiple(r * f, q * f);
  }

  lemma AddMultiple(a: nat, k: nat)
    ensures (a + k * TWO_64) % TWO_64 == a % TWO_64
  {
  }

  /** Level l may hold level 1's target times the multiplier, or 1 if that is smaller, to the power l - 1. */
  lemma {:induction false} TargetIsPower(l: nat, cfg: Config)
    requires l >= 1
    ensures var factor := if cfg.multiplier >= 1 then cfg.multiplier else 1;
            TargetOf(l, cfg) == cfg.level1Target * Power(factor, l - 1) % TWO_64
    decreases l
  {
    var factor := if cfg.multiplier >= 1 then cfg.multiplier else 1;
    if l > 1 {
      TargetIsPower(l - 1, cfg);
      var p := Power(factor, l - 2);
      TimesModulo(cfg.level1Target * p, factor);
      Regroup(cfg.level1Target, p, factor);
    }
  }

  lemma Regroup(a: nat, p: nat, f: nat)
    ensures a * p * f == a * (f * p)
  {
  }

  /** All key and value bytes of the entries, one after another. */
  function EntryPayload(es: seq<Entry>): Bytes {
    if es == [] then []
    else (if es[0].val.Live? then es[0].key + es[0].val.value else es[0].key) + EntryPayload(es[1..])
  }

  lemma {:induction false} SumBytesIsPayload(es: seq<Entry>)
    ensures SumBytes(es) == |EntryPayload(es)|
  {
    if es != [] { SumBytesIsPayload(es[1..]); }
  }

  /**
   * How big compaction makes its files: each but the last has at least memtable_flush_bytes and at least 2 MiB of
   * keys and values, and would miss one of the two without its last entry, as would the last.
   */
  lemma OutputSizes(st: State, level: nat, cfg: Config, i: nat)
    requires |st.levels| == MAX_LEVELS && level + 1 < MAX_LEVELS && i < |Compact(st, level, cfg).0.levels[level + 1]|
    ensures var files := Compact(st, level, cfg).0.levels[level + 1];
            var es := files[i].entries;
            es != [] &&
            (i < |files| - 1 ==> |EntryPayload(es)| >= cfg.flushBytes && |EntryPayload(es)| >= 2097152) &&
            (|EntryPayload(es[..|es| - 1])| < cfg.flushBytes || |EntryPayload(es[..|es| - 1])| < 2097152)
  {
    hide Compact, SumBytes, EntryPayload, AllEntries, MergedEntries;
    OutputIsPartition(st, level, cfg);
    var es := Compact(st, level, cfg).0.levels[level + 1][i].entries;
    SumBytesIsPayload(es);
    SumBytesIsPayload(es[..|es| - 1]);
  }
}
