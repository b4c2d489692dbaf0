/** The table file format (src/sstable.cpp): layout, and what opening, searching and scanning a file mean. */
module SSTable {
  import opened Bytes
  import opened Coding
  import opened Kv
  import Bloom

  const PUT_TAG: byte := 1
  const DELETE_TAG: byte := 2
  const MAGIC: bv64 := 0x436c6f6d44420001
  const FOOTER_SIZE: nat := 40
  const OFFSET_SIZE: nat := 8

  /** Bits per key, and the number of probes the writer derives from it. */
  datatype FilterSettings = FilterSettings(bitsPerKey: nat, probes: nat)

  /** The writer clamps the number of probes to this range. */
  type FilterParams = p: FilterSettings | 1 <= p.probes <= 30 witness FilterSettings(10, 6)

  datatype IndexEntry = IndexEntry(key: Bytes, offset: nat)

  /** An opened table: the index and the filter in memory, and the file behind them. */
  datatype Opened = Opened(index: seq<IndexEntry>, filter: Bytes, file: Bytes)

  // ---- Layout ----

  function EncodeEntry(e: Entry): Bytes {
    match e.val
    case Live(v) => [PUT_TAG] + LengthPrefixed(e.key) + LengthPrefixed(v)
    case Tombstone => [DELETE_TAG] + LengthPrefixed(e.key)
  }

  function Data(es: seq<Entry>): Bytes {
    if es == [] then [] else EncodeEntry(es[0]) + Data(es[1..])
  }

  function IndexOf(es: seq<Entry>, offset: nat): (r: seq<IndexEntry>)
    ensures |r| == |es|
    decreases |es|
  {
    if es == [] then []
    else [IndexEntry(es[0].key, offset)] + IndexOf(es[1..], offset + |EncodeEntry(es[0])|)
  }

  function EncodeIndexEntry(e: IndexEntry): Bytes {
    LengthPrefixed(e.key) + Fixed64(U64(e.offset))
  }

  function EncodeIndex(index: seq<IndexEntry>): Bytes {
    if index == [] then [] else EncodeIndexEntry(index[0]) + EncodeIndex(index[1..])
  }

  function Footer(indexOffset: nat, indexSize: nat, filterOffset: nat, filterSize: nat): Bytes {
    Fixed64(U64(indexOffset)) + (Fixed64(U64(indexSize)) +
        (Fixed64(U64(filterOffset)) + (Fixed64(U64(filterSize)) + Fixed64(MAGIC))))
  }

  function FilterOf(es: seq<Entry>, p: FilterParams): Bytes {
    Bloom.Filter(Keys(es), p.bitsPerKey, p.probes)
  }

  /** The bytes of the table file for a list of entries. */
  function EncodeTable(es: seq<Entry>, p: FilterParams): Bytes {
    var data, index, filter := Data(es), EncodeIndex(IndexOf(es, 0)), FilterOf(es, p);
    data + index + filter + Footer(|data|, |index|, |data| + |index|, |filter|)
  }

  // ---- Reading ----

  function ParseIndex(input: Bytes): Option<seq<IndexEntry>>
    decreases |input|
  {
    if input == [] then Some([])
    else
      match DecodeLengthPrefixed(input)
      case None => None
      case Some((key, rest)) =>
        if |rest| < OFFSET_SIZE then None
        else
          DecodeLengthPrefixedShrinks(input);
          match ParseIndex(rest[OFFSET_SIZE..])
          case None => None
          case Some(more) => Some([IndexEntry(key, N64(DecodeFixed64(rest)))] + more)
  }

  /** Reads size bytes at the offset; None if they are not all there. */
  function ReadBlock(file: Bytes, offset: nat, size: nat): Option<Bytes> {
    if size == 0 then Some([])
    else if offset + size > |file| then None
    else Some(file[offset..offset + size])
  }

  function FooterWord(file: Bytes, i: nat): bv64
    requires |file| >= FOOTER_SIZE && i < 5
  {
    DecodeFixed64(file[|file| - FOOTER_SIZE + 8 * i..])
  }

  /** SSTableReader::Open: None where it reports Corruption. */
  function Open(file: Bytes): Option<Opened> {
    if |file| < FOOTER_SIZE then None
    else if FooterWord(file, 4) != MAGIC then None
    else
      match ReadBlock(file, N64(FooterWord(file, 0)), N64(FooterWord(file, 1)))
      case None => None
      case Some(block) =>
        match ParseIndex(block)
        case None => None
        case Some(index) =>
          match ReadBlock(file, N64(FooterWord(file, 2)), N64(FooterWord(file, 3)))
          case None => None
          case Some(filter) => Some(Opened(index, filter, file))
  }

  /** The data entry at the front of the input and the input after it, as a scan reads it. */
  function ReadEntry(s: Bytes): Option<(Entry, Bytes)> {
    if s == [] then None
    else
      match DecodeLengthPrefixed(s[1..])
      case None => None
      case Some((key, rest)) =>
        if s[0] == PUT_TAG then
          match DecodeLengthPrefixed(rest)
          case None => None
          case Some((v, rest')) => Some((Entry(key, Live(v)), rest'))
        else Some((Entry(key, if s[0] == DELETE_TAG then Tombstone else Live([])), rest))
  }

  function ReadEntries(s: Bytes, n: nat): Option<seq<Entry>>
    decreases n
  {
    if n == 0 then Some([])
    else
      match ReadEntry(s)
      case None => None
      case Some((e, rest)) =>
        match ReadEntries(rest, n - 1)
        case None => None
        case Some(more) => Some([e] + more)
  }

  /** SSTableReader::ReadAll: as many entries as the index has, from the start of the file. */
  function ReadAll(t: Opened): Option<seq<Entry>> {
    ReadEntries(t.file, |t.index|)
  }

  /** The value of the data entry at the front of the input, as a point lookup reads it. */
  function ReadValue(s: Bytes): Option<Val> {
    if s == [] then None
    else
      match DecodeLengthPrefixed(s[1..])
      case None => None
      case Some((_, rest)) =>
        if s[0] == DELETE_TAG then Some(Tombstone)
        else
          match DecodeLengthPrefixed(rest)
          case None => None
          case Some((v, _)) => Some(Live(v))
  }

  ghost predicate IndexSorted(index: seq<IndexEntry>) {
    forall i, j :: 0 <= i < j < |index| ==> Less(index[i].key, index[j].key)
  }

  /** Where std::lower_bound stops: the number of index keys below the key. */
  function LowerBound(index: seq<IndexEntry>, key: Bytes): (r: nat)
    ensures r <= |index|
  {
    if index == [] || !Less(index[0].key, key) then 0 else 1 + LowerBound(index[1..], key)
  }

  /** SSTableReader::Get: None where it returns false. */
  function Get(t: Opened, key: Bytes): Option<Val> {
    if t.filter != [] && !Bloom.Contains(t.filter, key) then None
    else
      var i := LowerBound(t.index, key);
      if i == |t.index| || t.index[i].key != key then None
      else if t.index[i].offset > |t.file| then None
      else ReadValue(t.file[t.index[i].offset..])
  }

  // ---- What the machine widths allow ----

  predicate EntryFits(e: Entry) {
    |e.key| < TWO_32 && (e.val.Live? ==> |e.val.value| < TWO_32)
  }

  /** Key and value lengths fit 32 bits and the file size fits the signed 64 bits of ftell. */
  ghost predicate TableFits(es: seq<Entry>, p: FilterParams) {
    (forall i :: 0 <= i < |es| ==> EntryFits(es[i])) && |EncodeTable(es, p)| < TWO_64 / 2
  }

  // ---- Index round trip ----

  lemma Fixed64Length(v: bv64)
    ensures |Fixed64(v)| == 8
  {
  }

  lemma IndexEntryRoundTrip(e: IndexEntry, more: Bytes)
    requires |e.key| < TWO_32 && e.offset < TWO_64
    ensures var input := EncodeIndexEntry(e) + more;
            input != [] &&
            var d := DecodeLengthPrefixed(input);
            d.Some? && d.value.0 == e.key && |d.value.1| >= OFFSET_SIZE && d.value.1[OFFSET_SIZE..] == more &&
            N64(DecodeFixed64(d.value.1)) == e.offset
  {
    hide LengthPrefixed, DecodeLengthPrefixed, Fixed64, DecodeFixed64, U64, N64;
    var off := Fixed64(U64(e.offset));
    Fixed64Length(U64(e.offset));
    assert EncodeIndexEntry(e) + more == LengthPrefixed(e.key) + (off + more);
    LengthPrefixedRoundTrip(e.key, off + more);
    Size64RoundTrip(e.offset, more);
    assert (off + more)[OFFSET_SIZE..] == more;
  }

  lemma {:induction false} IndexRoundTrip(index: seq<IndexEntry>)
    requires forall i :: 0 <= i < |index| ==> |index[i].key| < TWO_32 && index[i].offset < TWO_64
    ensures ParseIndex(EncodeIndex(index)) == Some(index)
  {
    hide DecodeLengthPrefixed, DecodeFixed64, N64, EncodeIndexEntry;
    if index != [] {
      IndexEntryRoundTrip(index[0], EncodeIndex(index[1..]));
      IndexRoundTrip(index[1..]);
      assert index == [index[0]] + index[1..];
    }
  }

  lemma {:induction false} DataAppend(a: seq<Entry>, b: seq<Entry>)
    ensures Data(a + b) == Data(a) + Data(b)
  {
    hide EncodeEntry;
    if a == [] {
      assert a + b == b;
    } else {
      assert (a + b)[1..] == a[1..] + b;
      DataAppend(a[1..], b);
    }
  }

  lemma {:induction false} IndexOfAt(es: seq<Entry>, offset: nat, i: nat)
    requires i < |es|
    ensures IndexOf(es, offset)[i] == IndexEntry(es[i].key, offset + |Data(es[..i])|)
    decreases |es|
  {
    hide EncodeEntry;
    if i > 0 {
      IndexOfAt(es[1..], offset + |EncodeEntry(es[0])|, i - 1);
      assert es[..i] == [es[0]] + es[1..][..i - 1];
      assert es[..i][1..] == es[1..][..i - 1];
    }
  }

  lemma DataPrefix(es: seq<Entry>, i: nat)
    requires i <= |es|
    ensures Data(es) == Data(es[..i]) + Data(es[i..])
  {
    hide Data;
    assert es == es[..i] + es[i..];
    DataAppend(es[..i], es[i..]);
  }

  // ---- Opening what was written ----

  lemma FooterRoundTrip(body: Bytes, a: nat, b: nat, c: nat, d: nat)
    requires a < TWO_64 && b < TWO_64 && c < TWO_64 && d < TWO_64
    ensures var file := body + Footer(a, b, c, d);
            |Footer(a, b, c, d)| == FOOTER_SIZE && |file| >= FOOTER_SIZE && FooterWord(file, 4) == MAGIC &&
            N64(FooterWord(file, 0)) == a && N64(FooterWord(file, 1)) == b &&
            N64(FooterWord(file, 2)) == c && N64(FooterWord(file, 3)) == d
  {
    hide Fixed64, DecodeFixed64, U64, N64;
    Fixed64Length(U64(a));
    Fixed64Length(U64(b));
    Fixed64Length(U64(c));
    Fixed64Length(U64(d));
    Fixed64Length(MAGIC);
    var r4 := Fixed64(MAGIC);
    var r3 := Fixed64(U64(d)) + r4;
    var r2 := Fixed64(U64(c)) + r3;
    var r1 := Fixed64(U64(b)) + r2;
    var file := body + Footer(a, b, c, d);
    var n := |file| - FOOTER_SIZE;
    assert file[n..] == Fixed64(U64(a)) + r1;
    assert file[n + 8..] == Fixed64(U64(b)) + r2;
    assert file[n + 16..] == Fixed64(U64(c)) + r3;
    assert file[n + 24..] == Fixed64(U64(d)) + r4;
    assert file[n + 32..] == r4 + [];
    Size64RoundTrip(a, r1);
    Size64RoundTrip(b, r2);
    Size64RoundTrip(c, r3);
    Size64RoundTrip(d, r4);
    Fixed64RoundTrip(MAGIC, []);
  }

  lemma IndexOffsetsFit(es: seq<Entry>)
    requires forall i :: 0 <= i < |es| ==> EntryFits(es[i])
    requires |Data(es)| < TWO_64
    ensures forall i :: 0 <= i < |es| ==> |IndexOf(es, 0)[i].key| < TWO_32 && IndexOf(es, 0)[i].offset < TWO_64
  {
    hide Data, IndexOf;
    forall i | 0 <= i < |es|
      ensures |IndexOf(es, 0)[i].key| < TWO_32 && IndexOf(es, 0)[i].offset < TWO_64
    {
      IndexOfAt(es, 0, i);
      DataPrefix(es, i);
    }
  }

  lemma BlockAt(a: Bytes, b: Bytes, c: Bytes)
    ensures ReadBlock(a + b + c, |a|, |b|) == Some(b)
  {
    if b != [] { assert (a + b + c)[|a|..|a| + |b|] == b; }
  }

  /** Opening a written table gives its index and its filter. */
  lemma OpenWritten(es: seq<Entry>, p: FilterParams)
    requires TableFits(es, p)
    ensures Open(EncodeTable(es, p)) == Some(Opened(IndexOf(es, 0), FilterOf(es, p), EncodeTable(es, p)))
  {
    hide Data, EncodeIndex, IndexOf, FilterOf, Footer, FooterWord, ReadBlock, N64, ParseIndex;
    var data, index, filter := Data(es), EncodeIndex(IndexOf(es, 0)), FilterOf(es, p);
    var footer := Footer(|data|, |index|, |data| + |index|, |filter|);
    var file := EncodeTable(es, p);
    FooterRoundTrip(data + index + filter, |data|, |index|, |data| + |index|, |filter|);
    assert file == data + index + (filter + footer);
    BlockAt(data, index, filter + footer);
    assert file == (data + index) + filter + footer;
    BlockAt(data + index, filter, footer);
    IndexOffsetsFit(es);
    IndexRoundTrip(IndexOf(es, 0));
  }

  // ---- Reading what was written ----

  lemma EntryRoundTrip(e: Entry, more: Bytes)
    requires EntryFits(e)
    ensures ReadEntry(EncodeEntry(e) + more) == Some((e, more))
    ensures ReadValue(EncodeEntry(e) + more) == Some(e.val)
  {
    hide LengthPrefixed, DecodeLengthPrefixed;
    var s := EncodeEntry(e) + more;
    match e.val
    case Live(v) =>
      assert s[0] == PUT_TAG && s[1..] == LengthPrefixed(e.key) + (LengthPrefixed(v) + more);
      LengthPrefixedRoundTrip(e.key, LengthPrefixed(v) + more);
      LengthPrefixedRoundTrip(v, more);
    case Tombstone =>
      assert s[0] == DELETE_TAG && s[1..] == LengthPrefixed(e.key) + more;
      LengthPrefixedRoundTrip(e.key, more);
  }

  lemma {:induction false} ReadEntriesWritten(es: seq<Entry>, more: Bytes)
    requires forall i :: 0 <= i < |es| ==> EntryFits(es[i])
    ensures ReadEntries(Data(es) + more, |es|) == Some(es)
    decreases |es|
  {
    hide EncodeEntry, ReadEntry;
    if es != [] {
      assert Data(es) + more == EncodeEntry(es[0]) + (Data(es[1..]) + more);
      EntryRoundTrip(es[0], Data(es[1..]) + more);
      ReadEntriesWritten(es[1..], more);
      assert es == [es[0]] + es[1..];
    }
  }

  /** Scanning a written table returns the entries. */
  lemma ReadAllWritten(es: seq<Entry>, p: FilterParams)
    requires TableFits(es, p)
    ensures ReadAll(Opened(IndexOf(es, 0), FilterOf(es, p), EncodeTable(es, p))) == Some(es)
  {
    hide Data, EncodeIndex, IndexOf, FilterOf, Footer, ReadEntries;
    var data, index, filter := Data(es), EncodeIndex(IndexOf(es, 0)), FilterOf(es, p);
    var rest := index + filter + Footer(|data|, |index|, |data| + |index|, |filter|);
    assert EncodeTable(es, p) == data + rest;
    ReadEntriesWritten(es, rest);
  }

  /** The keys below the bound are exactly the smaller ones. */
  lemma {:induction false} LowerBoundAt(index: seq<IndexEntry>, key: Bytes, i: nat)
    requires IndexSorted(index) && i < |index|
    ensures i < LowerBound(index, key) <==> Less(index[i].key, key)
  {
    hide Less;
    if i > 0 {
      if Less(index[i].key, key) { LessTransitive(index[0].key, index[i].key, key); }
      assert index[i] == index[1..][i - 1];
      LowerBoundAt(index[1..], key, i - 1);
    }
  }

  lemma LowerBoundFinds(index: seq<IndexEntry>, key: Bytes, i: nat)
    requires IndexSorted(index) && i < |index| && index[i].key == key
    ensures LowerBound(index, key) == i
  {
    hide Less, LowerBound;
    LowerBoundAt(index, key, i);
    LessIrreflexive(key);
    if i > 0 { LowerBoundAt(index, key, i - 1); }
  }

  lemma IndexOfSorted(es: seq<Entry>)
    requires SortedEntries(es)
    ensures IndexSorted(IndexOf(es, 0))
    ensures forall i :: 0 <= i < |es| ==> IndexOf(es, 0)[i].key == es[i].key
  {
    hide Less, IndexOf;
    forall i | 0 <= i < |es|
      ensures IndexOf(es, 0)[i].key == es[i].key
    {
      IndexOfAt(es, 0, i);
    }
    var ks := Keys(es);
    forall i, j | 0 <= i < j < |es|
      ensures Less(IndexOf(es, 0)[i].key, IndexOf(es, 0)[j].key)
    {
      assert Less(ks[i], ks[j]);
    }
  }

  lemma FilterHasKey(es: seq<Entry>, p: FilterParams, i: nat)
    requires i < |es|
    ensures Bloom.Contains(FilterOf(es, p), es[i].key)
  {
    hide Bloom.Contains, Bloom.Filter;
    Bloom.NoFalseNegatives(Keys(es), p.bitsPerKey, p.probes, i);
  }

  lemma EntryAt(es: seq<Entry>, p: FilterParams, i: nat)
    requires TableFits(es, p) && i < |es|
    ensures var off := |Data(es[..i])|;
            off <= |EncodeTable(es, p)| && ReadValue(EncodeTable(es, p)[off..]) == Some(es[i].val)
  {
    hide EncodeEntry, EncodeIndex, IndexOf, FilterOf, Footer, ReadValue;
    var data, index, filter := Data(es), EncodeIndex(IndexOf(es, 0)), FilterOf(es, p);
    var rest := index + filter + Footer(|data|, |index|, |data| + |index|, |filter|);
    var before := Data(es[..i]);
    DataPrefix(es, i);
    assert es[i..][0] == es[i] && es[i..][1..] == es[i + 1..];
    assert EncodeTable(es, p) == before + (EncodeEntry(es[i]) + (Data(es[i + 1..]) + rest));
    EntryRoundTrip(es[i], Data(es[i + 1..]) + rest);
    assert EncodeTable(es, p)[|before|..] == EncodeEntry(es[i]) + (Data(es[i + 1..]) + rest);
  }

  /** A point lookup in a written table answers as the entry list does, tombstones included. */
  lemma GetWritten(es: seq<Entry>, p: FilterParams, key: Bytes)
    requires TableFits(es, p) && SortedEntries(es)
    ensures Get(Opened(IndexOf(es, 0), FilterOf(es, p), EncodeTable(es, p)), key) == Lookup(es, key)
  {
    hide Less, IndexOf, FilterOf, EncodeTable, ReadValue, LowerBound, TableOf, Bloom.Contains, Data;
    var index := IndexOf(es, 0);
    IndexOfSorted(es);
    TableOfKeys(es);
    if key in Keys(es) {
      var i: nat :| i < |es| && Keys(es)[i] == key;
      LowerBoundFinds(index, key, i);
      FilterHasKey(es, p, i);
      IndexOfAt(es, 0, i);
      EntryAt(es, p, i);
      TableOfAt(es, i);
    } else {
      var i := LowerBound(index, key);
      assert i < |index| ==> Keys(es)[i] in Keys(es) && index[i].key == Keys(es)[i];
    }
  }

  /** Whatever Open accepts is long enough for a footer and ends with the magic number. */
  lemma AcceptedFooter(file: Bytes)
    requires Open(file).Some?
    ensures |file| >= 40 && file[|file| - 8..] == Fixed64(0x436c6f6d44420001)
  {
    hide Fixed64, DecodeFixed64, N64, ParseIndex, ReadBlock;
    Fixed64Onto(file[|file| - 8..]);
  }

  /** One unset bit among a key's positions ends the lookup, whatever the index says. */
  lemma FilterDecides(t: Opened, key: Bytes, j: nat)
    requires |t.filter| > 1 && j < IntOf(t.filter[|t.filter| - 1]) <= 30
    requires !Bloom.TestBit(t.filter, Bloom.Position(key, j, Bloom.Bits(t.filter)))
    ensures Get(t, key) == None
  {
    hide IntOf, Bloom.Contains, Bloom.TestBit, Bloom.Position;
    Bloom.ContainsIff(t.filter, key);
  }
}
