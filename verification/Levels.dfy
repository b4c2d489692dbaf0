/** What levels of files mean as maps, and that point reads and the iterator both answer from that meaning. */
module Levels {
  import opened Bytes
  import opened Kv
  import opened MemTables
  import opened Manifests
  import opened Engine
  import SSTable

  function MapGet(m: Kv.Table, key: Bytes): Option<Val> {
    if key in m then Some(m[key]) else None
  }

  // ---- Files as maps ----

  lemma {:induction false} AllEntriesAppend(a: Level, b: Level)
    ensures AllEntries(a + b) == AllEntries(a) + AllEntries(b)
  {
    if a == [] {
      assert a + b == b;
    } else {
      assert (a + b)[1..] == a[1..] + b;
      AllEntriesAppend(a[1..], b);
    }
  }

  lemma FilesMapAppend(a: Level, b: Level)
    ensures FilesMap(a + b) == FilesMap(a) + FilesMap(b)
  {
    hide TableOf;
    AllEntriesAppend(a, b);
    TableOfAppend(AllEntries(a), AllEntries(b));
  }

  lemma FilesMapCons(files: Level)
    requires files != []
    ensures FilesMap(files) == TableOf(files[0].entries) + FilesMap(files[1..])
  {
    hide TableOf;
    TableOfAppend(files[0].entries, AllEntries(files[1..]));
  }

  lemma FilesMapOne(f: File)
    ensures FilesMap([f]) == TableOf(f.entries) && AllEntries([f]) == f.entries
  {
    hide TableOf;
    assert [f][1..] == [];
    assert AllEntries([f]) == f.entries + AllEntries([]) == f.entries;
  }

  lemma FilesMapNone()
    ensures FilesMap([]) == map[]
  {
  }

  // ---- Order by number ----

  /** Files listed in ascending order of number are already oldest first. */
  lemma {:induction false} AscendingIsOldestFirst(files: Level)
    requires Ascending(files)
    ensures OldestFirst(files) == files
  {
    if files != [] {
      assert forall i :: 0 <= i < |files[1..]| ==> files[1..][i] == files[i + 1];
      AscendingIsOldestFirst(files[1..]);
      assert files == [files[0]] + files[1..];
    }
  }

  // ---- Disjoint files of one level ----

  // ---- The sort by number ----

  ghost predicate ByNumber(files: Level) {
    forall i, j :: 0 <= i < j < |files| ==> files[i].meta.number <= files[j].meta.number
  }

  lemma {:induction false} InsertKeepsAll(f: File, files: Level)
    ensures multiset(InsertByNumber(f, files)) == multiset{f} + multiset(files)
    decreases |files|
  {
    if files != [] && f.meta.number > files[0].meta.number {
      InsertKeepsAll(f, files[1..]);
      assert files == [files[0]] + files[1..];
    }
  }

  lemma {:induction false} InsertMembers(f: File, files: Level)
    ensures forall i :: 0 <= i < |InsertByNumber(f, files)| ==>
              InsertByNumber(f, files)[i] == f || InsertByNumber(f, files)[i] in files
    decreases |files|
  {
    if files != [] { InsertMembers(f, files[1..]); }
  }

  lemma ByNumberCons(f: File, rest: Level)
    requires ByNumber(rest) && forall i :: 0 <= i < |rest| ==> f.meta.number <= rest[i].meta.number
    ensures ByNumber([f] + rest)
  {
    var all := [f] + rest;
    forall i, j | 0 <= i < j < |all|
      ensures all[i].meta.number <= all[j].meta.number
    {
      assert all[j] == rest[j - 1];
    }
  }

  lemma ByNumberRest(files: Level)
    requires ByNumber(files) && files != []
    ensures ByNumber(files[1..])
    ensures forall g :: g in files ==> files[0].meta.number <= g.meta.number
  {
    forall i, j | 0 <= i < j < |files[1..]|
      ensures files[1..][i].meta.number <= files[1..][j].meta.number
    {
      assert files[i + 1].meta.number <= files[j + 1].meta.number;
    }
  }

  lemma {:induction false} InsertSorts(f: File, files: Level)
    requires ByNumber(files)
    ensures ByNumber(InsertByNumber(f, files))
    decreases |files|
  {
    hide ByNumber;
    if files == [] {
      NothingByNumber();
      ByNumberCons(f, files);
    } else {
      ByNumberRest(files);
      if f.meta.number <= files[0].meta.number {
        ByNumberCons(f, files);
      } else {
        InsertSorts(f, files[1..]);
        InsertMembers(f, files[1..]);
        ByNumberCons(files[0], InsertByNumber(f, files[1..]));
      }
    }
  }

  /** On any list of files, sorting by number rearranges it into ascending order and loses none. */
  lemma {:induction false} OldestFirstSorts(files: Level)
    ensures ByNumber(OldestFirst(files)) && multiset(OldestFirst(files)) == multiset(files)
    decreases |files|
  {
    hide ByNumber, InsertByNumber;
    if files == [] {
      NothingByNumber();
    } else {
      OldestFirstSorts(files[1..]);
      InsertSorts(files[0], OldestFirst(files[1..]));
      InsertKeepsAll(files[0], OldestFirst(files[1..]));
      assert files == [files[0]] + files[1..];
    }
  }

  lemma NothingByNumber()
    ensures ByNumber([])
  {
  }

  lemma SortedParts(a: seq<Entry>, b: seq<Entry>)
    requires SortedEntries(a + b)
    ensures SortedEntries(a) && SortedEntries(b)
    ensures forall k :: k in TableOf(a) ==> k !in TableOf(b)
    ensures forall i, j :: 0 <= i < |a| && 0 <= j < |b| ==> Less(a[i].key, b[j].key)
  {
    hide Less, TableOf;
    var ks := Keys(a + b);
    forall i, j | 0 <= i < j < |a|
      ensures Less(Keys(a)[i], Keys(a)[j])
    {
      assert ks[i] == Keys(a)[i] && ks[j] == Keys(a)[j];
    }
    forall i, j | 0 <= i < j < |b|
      ensures Less(Keys(b)[i], Keys(b)[j])
    {
      assert ks[|a| + i] == Keys(b)[i] && ks[|a| + j] == Keys(b)[j];
    }
    forall i, j | 0 <= i < |a| && 0 <= j < |b|
      ensures Less(a[i].key, b[j].key)
    {
      assert ks[i] == a[i].key && ks[|a| + j] == b[j].key;
    }
    TableOfKeys(a);
    TableOfKeys(b);
    forall k | k in TableOf(a)
      ensures k !in TableOf(b)
    {
      if k in TableOf(b) {
        var i :| 0 <= i < |a| && Keys(a)[i] == k;
        var j :| 0 <= j < |b| && Keys(b)[j] == k;
        LessIrreflexive(k);
      }
    }
  }

  /** The order in which disjoint files are merged does not matter. */
  lemma {:induction false} FilesMapReverse(files: Level)
    requires SortedEntries(AllEntries(files))
    ensures FilesMap(Reverse(files)) == FilesMap(files)
  {
    hide TableOf, FilesMap, SortedEntries, Keys;
    if files != [] {
      var f, rest := files[0], files[1..];
      SortedParts(f.entries, AllEntries(rest));
      FilesMapReverse(rest);
      FilesMapAppend(Reverse(rest), [f]);
      FilesMapOne(f);
      FilesMapCons(files);
      FilesMapDef(rest);
      assert FilesMap(rest) + TableOf(f.entries) == TableOf(f.entries) + FilesMap(rest);
    }
  }

  lemma FilesMapDef(files: Level)
    ensures FilesMap(files) == TableOf(AllEntries(files))
  {
  }

  /** Entries of a sorted list lie between its first and its last key. */
  lemma KeysInRange(f: File, key: Bytes)
    requires f.entries != [] && SortedEntries(f.entries)
    requires f.meta.minKey == f.entries[0].key && f.meta.maxKey == f.entries[|f.entries| - 1].key
    requires key in TableOf(f.entries)
    ensures InRange(f.meta, key)
  {
    hide Less, TableOf;
    TableOfKeys(f.entries);
    var i :| 0 <= i < |f.entries| && Keys(f.entries)[i] == key;
    var n := |f.entries| - 1;
    LessIrreflexive(key);
    if i > 0 { assert Less(Keys(f.entries)[0], Keys(f.entries)[i]); Trichotomy(Keys(f.entries)[0], key); }
    if i < n { assert Less(Keys(f.entries)[i], Keys(f.entries)[n]); Trichotomy(key, Keys(f.entries)[n]); }
  }

  // ---- Point reads ----

  lemma {:induction false} SearchAppend(a: Level, b: Level, key: Bytes)
    ensures SearchFiles(a + b, key) == match SearchFiles(a, key) case Some(v) => Some(v)
            case None => SearchFiles(b, key)
  {
    hide Lookup;
    if a == [] {
      assert a + b == b;
    } else {
      assert (a + b)[1..] == a[1..] + b;
      SearchAppend(a[1..], b, key);
    }
  }

  lemma SearchOne(f: File, key: Bytes)
    ensures SearchFiles([f], key) == MapGet(TableOf(f.entries), key)
  {
    hide TableOf;
    assert [f][1..] == [];
    assert SearchFiles([], key) == None;
  }

  /** Searching newest first and stopping at the first hit finds what overwriting oldest first leaves. */
  lemma {:induction false} SearchNewestFirst(files: Level, key: Bytes)
    ensures SearchFiles(Reverse(files), key) == MapGet(FilesMap(files), key)
  {
    hide TableOf, FilesMap;
    if files == [] {
      FilesMapNone();
    } else {
      SearchNewestFirst(files[1..], key);
      SearchAppend(Reverse(files[1..]), [files[0]], key);
      SearchOne(files[0], key);
      FilesMapCons(files);
    }
  }

  ghost predicate RangesExact(files: Level) {
    forall i :: 0 <= i < |files| ==>
      files[i].entries != [] && SortedEntries(files[i].entries) &&
      files[i].meta.minKey == files[i].entries[0].key &&
          files[i].meta.maxKey == files[i].entries[|files[i].entries| - 1].key
  }

  /** Skipping files by their recorded range misses nothing in a level of disjoint files. */
  lemma {:induction false} SearchByRange(files: Level, key: Bytes)
    requires RangesExact(files) && SortedEntries(AllEntries(files))
    ensures SearchRanges(files, key) == MapGet(FilesMap(files), key)
  {
    hide TableOf, FilesMap, InRange, SortedEntries, Keys;
    if files == [] {
      FilesMapNone();
    } else {
      var f, rest := files[0], files[1..];
      SortedParts(f.entries, AllEntries(rest));
      assert RangesExact(rest) by { assert forall i :: 0 <= i < |rest| ==> rest[i] == files[i + 1]; }
      SearchByRange(rest, key);
      FilesMapCons(files);
      FilesMapDef(rest);
      if key in TableOf(f.entries) { KeysInRange(f, key); }
    }
  }

  lemma {:induction false} SearchByLevels(levels: seq<Level>, key: Bytes)
    requires forall l :: 0 <= l < |levels| ==> RangesExact(levels[l]) && SortedEntries(AllEntries(levels[l]))
    ensures SearchLevels(levels, key) == MapGet(LevelsMap(levels), key)
  {
    hide RangesExact, SortedEntries, SearchRanges, FilesMap;
    if levels != [] {
      SearchByRange(levels[0], key);
      SearchByLevels(levels[1..], key);
    }
  }

  lemma FilesOkRanges(files: Level, next: nat)
    requires FilesOk(files, next)
    ensures RangesExact(files)
  {
    hide SortedEntries, SSTable.EncodeTable;
    forall i | 0 <= i < |files|
      ensures files[i].entries != [] && SortedEntries(files[i].entries)
      ensures files[i].meta.minKey == files[i].entries[0].key &&
              files[i].meta.maxKey == files[i].entries[|files[i].entries| - 1].key
    {
      assert FileOk(files[i], next);
    }
  }

  /** The code's search finds exactly what the contents hold, tombstones included. */
  lemma SearchIsContents(st: State, key: Bytes)
    requires Inv(st)
    ensures Search(st, key) == MapGet(Contents(st), key)
  {
    hide SortedEntries, FilesMap, SearchFiles, SearchRanges, FilesOk, RangesExact, Reverse, OldestFirst, Ascending;
    var deep := st.levels[1..];
    AscendingIsOldestFirst(st.levels[0]);
    SearchNewestFirst(st.levels[0], key);
    forall l | 0 <= l < |deep|
      ensures RangesExact(deep[l]) && SortedEntries(AllEntries(deep[l]))
    {
      FilesOkRanges(st.levels[l + 1], st.next);
    }
    SearchByLevels(deep, key);
  }

  /** Get answers a key with a value exactly when the user's map has it with that value. */
  lemma GetIsAbs(st: State, key: Bytes)
    requires Inv(st)
    ensures Get(st, key) == if key in Abs(st) then Some(Abs(st)[key]) else None
  {
    hide Search, Contents, LevelsMap, Inv;
    SearchIsContents(st, key);
  }

  // ---- The iterator ----

  /** Overwriting and erasing visible values does what overwriting with tombstones does. */
  lemma {:induction false} ApplyEntriesVisible(m: Kv.Table, es: seq<Entry>)
    ensures ApplyEntries(Visible(m), es) == Visible(m + TableOf(es))
    decreases |es|
  {
    hide TableOf, Insert;
    if es == [] {
      TableOfNone();
      assert m + map[] == m;
    } else {
      var m' := m[es[0].key := es[0].val];
      ApplyEntriesVisible(m', es[1..]);
      match es[0].val {
        case Live(v) => assert Visible(m') == Visible(m)[es[0].key := v];
        case Tombstone => assert Visible(m') == Visible(m) - {es[0].key};
      }
      TableOfHead(es);
      assert m' + TableOf(es[1..]) == m + (map[es[0].key := es[0].val] + TableOf(es[1..]));
    }
  }

  lemma TableOfNone()
    ensures TableOf([]) == map[]
  {
  }

  lemma TableOfHead(es: seq<Entry>)
    requires es != []
    ensures TableOf(es) == map[es[0].key := es[0].val] + TableOf(es[1..])
  {
    hide TableOf;
    assert es == [es[0]] + es[1..];
    TableOfAppend([es[0]], es[1..]);
    TableOfOne(es[0]);
  }

  lemma {:induction false} ApplyLevelsVisible(levels: seq<Level>)
    ensures ApplyLevels(levels) == Visible(LevelsMap(levels))
  {
    hide TableOf, ApplyEntries, FilesMap, AllEntries;
    if levels != [] {
      ApplyLevelsVisible(levels[1..]);
      ApplyEntriesVisible(LevelsMap(levels[1..]), AllEntries(levels[0]));
      FilesMapDef(levels[0]);
    }
  }

  /** The iterator's snapshot is the user's map. */
  lemma SnapshotIsAbs(st: State)
    requires Inv(st)
    ensures Snapshot(st) == Abs(st)
  {
    hide TableOf, ApplyEntries, ApplyLevels, FilesMap, AllEntries, OldestFirst, Ascending, Entries, FilesOk,
      SortedEntries;
    var deep := st.levels[1..];
    ApplyLevelsVisible(deep);
    AscendingIsOldestFirst(st.levels[0]);
    ApplyEntriesVisible(LevelsMap(deep), AllEntries(st.levels[0]));
    FilesMapDef(st.levels[0]);
    ApplyEntriesVisible(LevelsMap(st.levels), Entries(st.mem.table));
    TableOfEntries(st.mem.table);
  }

  /** The early-exit search and the overwrite-and-erase fold agree on every key. */
  lemma GetAgreesWithIterator(st: State, key: Bytes)
    requires Inv(st)
    ensures Get(st, key) == if key in Snapshot(st) then Some(Snapshot(st)[key]) else None
  {
    hide Get, Snapshot, Abs, Inv;
    GetIsAbs(st, key);
    SnapshotIsAbs(st);
  }
}
