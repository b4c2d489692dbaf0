/** Writing, opening, searching and scanning table files (src/sstable.cpp), step by step. */
module SSTableIO {
  import opened Bytes
  import opened Coding
  import opened Kv
  import opened SSTable
  import Bloom

  method PutEntry(dst: Bytes, e: Entry) returns (out: Bytes)
    ensures out == dst + EncodeEntry(e)
  {
    hide LengthPrefixed;
    match e.val {
      case Live(v) =>
        out := PutLengthPrefixedSlice(dst + [SSTable.PUT_TAG], e.key);
        out := PutLengthPrefixedSlice(out, v);
        assert out == dst + EncodeEntry(e);
      case Tombstone =>
        out := PutLengthPrefixedSlice(dst + [SSTable.DELETE_TAG], e.key);
        assert out == dst + EncodeEntry(e);
    }
  }

  lemma DataSnoc(es: seq<Entry>, i: nat)
    requires i < |es|
    ensures Data(es[..i + 1]) == Data(es[..i]) + EncodeEntry(es[i])
    ensures Keys(es[..i + 1]) == Keys(es[..i]) + [es[i].key]
  {
    hide EncodeEntry;
    assert es[..i + 1] == es[..i] + [es[i]];
    DataAppend(es[..i], [es[i]]);
    assert [es[i]][1..] == [];
    assert Data([es[i]]) == EncodeEntry(es[i]) + Data([]);
  }

  lemma {:induction false} EncodeIndexAppend(a: seq<IndexEntry>, b: seq<IndexEntry>)
    ensures EncodeIndex(a + b) == EncodeIndex(a) + EncodeIndex(b)
  {
    hide EncodeIndexEntry;
    if a == [] {
      assert a + b == b;
    } else {
      assert (a + b)[1..] == a[1..] + b;
      EncodeIndexAppend(a[1..], b);
    }
  }

  lemma EncodeIndexSnoc(index: seq<IndexEntry>, i: nat)
    requires i < |index|
    ensures EncodeIndex(index[..i + 1]) == EncodeIndex(index[..i]) + EncodeIndexEntry(index[i])
  {
    hide EncodeIndexEntry;
    assert index[..i + 1] == index[..i] + [index[i]];
    EncodeIndexAppend(index[..i], [index[i]]);
    assert [index[i]][1..] == [];
    assert EncodeIndex([index[i]]) == EncodeIndexEntry(index[i]) + EncodeIndex([]);
  }

  /** SSTableWriter::Write: the bytes of the new file, or None where it refuses an empty table. */
  method Write(entries: seq<Entry>, p: FilterParams) returns (r: Option<Bytes>)
    ensures entries == [] ==> r == None
    ensures entries != [] ==> r == Some(EncodeTable(entries, p))
  {
    hide EncodeEntry, Data, IndexOf, EncodeIndex, EncodeIndexEntry, Footer, Bloom.Filter, LengthPrefixed, Fixed64, U64;
    if entries == [] { return None; }
    var data: Bytes, offsets: seq<IndexEntry>, keys: seq<Bytes> := [], [], [];
    var i := 0;
    EmptyData();
    assert entries[..0] == [];
    while i < |entries|
      invariant 0 <= i <= |entries|
      invariant data == Data(entries[..i])
      invariant offsets == IndexOf(entries, 0)[..i]
      invariant keys == Keys(entries[..i])
    {
      DataSnoc(entries, i);
      IndexOfAt(entries, 0, i);
      offsets := offsets + [IndexEntry(entries[i].key, |data|)];
      var enc := PutEntry([], entries[i]);
      data := data + enc;
      keys := keys + [entries[i].key];
      i := i + 1;
    }
    assert entries[..i] == entries && offsets == IndexOf(entries, 0);
    var index: Bytes := [];
    i := 0;
    assert offsets[..0] == [];
    while i < |offsets|
      invariant 0 <= i <= |offsets|
      invariant index == EncodeIndex(offsets[..i])
    {
      EncodeIndexSnoc(offsets, i);
      ghost var before := index;
      index := PutLengthPrefixedSlice(index, offsets[i].key);
      index := index + Fixed64(U64(offsets[i].offset));
      IndexEntryShape(before, offsets[i]);
      i := i + 1;
    }
    assert offsets[..i] == offsets;
    var filter := Bloom.Build(keys, p.bitsPerKey, p.probes);
    r := Some(data + index + filter + Footer(|data|, |index|, |data| + |index|, |filter|));
  }

  lemma EmptyData()
    ensures Data([]) == [] && EncodeIndex([]) == []
  {
  }

  lemma IndexEntryShape(before: Bytes, e: IndexEntry)
    ensures before + LengthPrefixed(e.key) + Fixed64(U64(e.offset)) == before + EncodeIndexEntry(e)
  {
    hide LengthPrefixed, Fixed64, U64;
  }

  // ---- Reading a varint from a file, byte by byte ----

  lemma {:induction false} DecodeExtend(s: Bytes, more: Bytes, n: nat)
    requires DecodeVarint32(s, n).Some?
    ensures DecodeVarint32(s + more, n) == Some((DecodeVarint32(s, n).value.0, DecodeVarint32(s, n).value.1 + more))
    decreases n
  {
    hide More, Septet, Up7, Or;
    assert (s + more)[1..] == s[1..] + more;
    if More(s[0]) { DecodeExtend(s[1..], more, n - 1); }
  }

  ghost predicate AllMore(s: Bytes) {
    forall i :: 0 <= i < |s| ==> More(s[i])
  }

  lemma {:induction false} DecodeAllMore(s: Bytes, n: nat)
    requires AllMore(s) && |s| <= n
    ensures DecodeVarint32(s, n) == None
    decreases n
  {
    hide More, Septet, Up7, Or;
    if s != [] { DecodeAllMore(s[1..], n - 1); }
  }

  lemma {:induction false} DecodeTooLong(s: Bytes, more: Bytes, n: nat)
    requires AllMore(s) && |s| == n
    ensures DecodeVarint32(s + more, n) == None
    decreases n
  {
    hide More, Septet, Up7, Or;
    if s != [] {
      assert (s + more)[1..] == s[1..] + more;
      DecodeTooLong(s[1..], more, n - 1);
    }
  }

  lemma {:induction false} DecodeEnded(s: Bytes, last: byte, n: nat)
    requires AllMore(s) && !More(last) && |s| < n
    ensures DecodeVarint32(s + [last], n).Some? && DecodeVarint32(s + [last], n).value.1 == []
    decreases n
  {
    hide More, Septet, Up7, Or;
    if s != [] {
      assert (s + [last])[1..] == s[1..] + [last];
      DecodeEnded(s[1..], last, n - 1);
    }
  }

  /** Reads up to five bytes at the cursor and decodes them; the value and the cursor after it. */
  method ReadVarint(file: Bytes, pos: nat) returns (r: Option<(bv32, nat)>)
    requires pos <= |file|
    ensures match DecodeVarint32(file[pos..], 5)
            case None => r == None
            case Some((v, rest)) => r.Some? && r.value.0 == v && pos < r.value.1 <= |file| && rest == file[r.value.1..]
  {
    hide DecodeVarint32, More;
    var tmp: Bytes := [];
    var i := 0;
    var ended := false;
    while i < 5 && !ended
      invariant 0 <= i <= 5 && i == |tmp| && pos + i <= |file|
      invariant tmp == file[pos..pos + i]
      invariant if ended then i > 0 && AllMore(tmp[..i - 1]) && !More(tmp[i - 1]) else AllMore(tmp)
      decreases 5 - i + (if ended then 0 else 1)
    {
      if pos + i == |file| {
        assert file[pos..] == tmp;
        DecodeAllMore(tmp, 5);
        return None;
      }
      var b := file[pos + i];
      tmp := tmp + [b];
      assert tmp[..i] == file[pos..pos + i];
      i := i + 1;
      if !More(b) { ended := true; }
    }
    assert file[pos..] == tmp + file[pos + i..];
    assert tmp[0..|tmp|] == tmp;
    var d := GetVarint32Ptr(tmp, 0, |tmp|);
    if ended {
      assert tmp == tmp[..i - 1] + [tmp[i - 1]];
      DecodeEnded(tmp[..i - 1], tmp[i - 1], 5);
      DecodeExtend(tmp, file[pos + i..], 5);
      assert [] + file[pos + i..] == file[pos + i..];
      r := Some((d.value.0, pos + i));
    } else {
      DecodeTooLong(tmp, file[pos + i..], 5);
      r := None;
    }
  }

  /** Reads a length and then that many bytes at the cursor. */
  method ReadString(file: Bytes, pos: nat) returns (r: Option<(Bytes, nat)>)
    requires pos <= |file|
    ensures match DecodeLengthPrefixed(file[pos..])
            case None => r == None
            case Some((s, rest)) => r.Some? && r.value.0 == s && pos <= r.value.1 <= |file| && rest == file[r.value.1..]
  {
    hide DecodeVarint32, N32;
    var d := ReadVarint(file, pos);
    if d == None { return None; }
    var (len, p) := d.value;
    var n := N32(len);
    if p + n > |file| { return None; }
    assert file[p..][n..] == file[p + n..] && file[p..][..n] == file[p..p + n];
    r := Some((file[p..p + n], p + n));
  }

  // ---- The reader ----

  /** An opened table. Open fills the fields once; they never change afterwards. */
  class SSTableReader {
    const index: seq<IndexEntry>
    const filter: Bytes
    const file: Bytes

    constructor (index: seq<IndexEntry>, filter: Bytes, file: Bytes)
      ensures View() == Opened(index, filter, file)
    {
      this.index := index;
      this.filter := filter;
      this.file := file;
    }

    ghost function View(): Opened {
      Opened(index, filter, file)
    }

    /** SSTableReader::Get: None where it returns false, a tombstone where it reports deleted. */
    method Get(key: Bytes) returns (r: Option<Val>)
      requires IndexSorted(index)
      ensures r == SSTable.Get(View(), key)
    {
      hide Less, LowerBound, DecodeLengthPrefixed, Bloom.Contains;
      if filter != [] {
        var may := Bloom.MayContain(filter, key);
        if !may { return None; }
      }
      var i := FindLowerBound(key);
      if i == |index| || index[i].key != key { return None; }
      var pos := index[i].offset;
      if pos > |file| { return None; }
      if pos == |file| { return None; }
      var tag := file[pos];
      assert file[pos..][1..] == file[pos + 1..];
      var k := ReadString(file, pos + 1);
      if k == None { return None; }
      if tag == SSTable.DELETE_TAG { return Some(Tombstone); }
      var v := ReadString(file, k.value.1);
      if v == None { return None; }
      r := Some(Live(v.value.0));
    }

    /** std::lower_bound over the index. */
    method FindLowerBound(key: Bytes) returns (i: nat)
      requires IndexSorted(index)
      ensures i == LowerBound(index, key)
    {
      hide Less, LowerBound;
      var lo, hi := 0, |index|;
      while lo < hi
        invariant 0 <= lo <= hi <= |index|
        invariant forall j :: 0 <= j < lo ==> Less(index[j].key, key)
        invariant forall j :: hi <= j < |index| ==> !Less(index[j].key, key)
      {
        var mid := (lo + hi) / 2;
        var c := Compare(index[mid].key, key);
        forall j | 0 <= j < |index| && j != mid
          ensures j < mid && c < 0 ==> Less(index[j].key, key)
          ensures j > mid && c >= 0 ==> !Less(index[j].key, key)
        {
          if j < mid && c < 0 { LessTransitive(index[j].key, index[mid].key, key); }
          if j > mid && c >= 0 && Less(index[j].key, key) { LessTransitive(index[mid].key, index[j].key, key); }
        }
        if c < 0 {
          lo := mid + 1;
        } else {
          hi := mid;
        }
      }
      i := lo;
      if lo < |index| { LowerBoundAt(index, key, lo); }
      if lo > 0 { LowerBoundAt(index, key, lo - 1); }
    }

    /** SSTableReader::ReadAll: the entries in file order, or None where it reports Corruption. */
    method ReadAll() returns (r: Option<seq<Entry>>)
      ensures r == SSTable.ReadAll(View())
    {
      hide DecodeLengthPrefixed;
      var out: seq<Entry> := [];
      var pos, i := 0, 0;
      assert file[0..] == file;
      ghost var whole := ReadEntries(file, |index|);
      assert whole.Some? ==> [] + whole.value == whole.value;
      while i < |index|
        invariant 0 <= i <= |index| && 0 <= pos <= |file|
        invariant whole == AppendTo(out, ReadEntries(file[pos..], |index| - i))
      {
        ghost var rest := file[pos..];
        if pos == |file| {
          assert ReadEntry(rest) == None;
          return None;
        }
        var tag := file[pos];
        assert rest[1..] == file[pos + 1..];
        var k := ReadString(file, pos + 1);
        if k == None { return None; }
        var e := Entry(k.value.0, if tag == SSTable.DELETE_TAG then Tombstone else Live([]));
        pos := k.value.1;
        if tag == SSTable.PUT_TAG {
          var v := ReadString(file, pos);
          if v == None { return None; }
          e := Entry(k.value.0, Live(v.value.0));
          pos := v.value.1;
        }
        assert ReadEntry(rest) == Some((e, file[pos..]));
        AppendStep(out, e, ReadEntries(file[pos..], |index| - i - 1));
        out := out + [e];
        i := i + 1;
      }
      assert out + [] == out;
      r := Some(out);
    }
  }

  ghost function AppendTo(out: seq<Entry>, more: Option<seq<Entry>>): Option<seq<Entry>> {
    match more case None => None case Some(es) => Some(out + es)
  }

  lemma AppendStep(out: seq<Entry>, e: Entry, more: Option<seq<Entry>>)
    ensures AppendTo(out, AppendTo([e], more)) == AppendTo(out + [e], more)
  {
    if more.Some? { assert out + ([e] + more.value) == (out + [e]) + more.value; }
  }

  /** SSTableReader::Open: None where it reports Corruption. */
  method OpenReader(file: Bytes) returns (r: Option<SSTableReader>)
    ensures r.Some? <==> SSTable.Open(file).Some?
    ensures r.Some? ==> r.value.View() == SSTable.Open(file).value
  {
    hide FooterWord, DecodeLengthPrefixed, DecodeFixed64, N64;
    if |file| < FOOTER_SIZE { return None; }
    var indexOffset, indexSize := N64(FooterWord(file, 0)), N64(FooterWord(file, 1));
    var filterOffset, filterSize := N64(FooterWord(file, 2)), N64(FooterWord(file, 3));
    if FooterWord(file, 4) != MAGIC { return None; }
    var block := ReadBlock(file, indexOffset, indexSize);
    if block == None { return None; }
    var input := block.value;
    var index: seq<IndexEntry> := [];
    ghost var whole := ParseIndex(block.value);
    assert whole.Some? ==> [] + whole.value == whole.value;
    while input != []
      invariant whole == PrependTo(index, ParseIndex(input))
      decreases |input|
    {
      DecodeLengthPrefixedShrinks(input);
      var k := GetLengthPrefixedSlice(input);
      if k == None || |k.value.1| < OFFSET_SIZE { return None; }
      var off := N64(DecodeFixed64(k.value.1));
      PrependStep(index, IndexEntry(k.value.0, off), ParseIndex(k.value.1[OFFSET_SIZE..]));
      index := index + [IndexEntry(k.value.0, off)];
      input := k.value.1[OFFSET_SIZE..];
    }
    assert index + [] == index;
    var filter := ReadBlock(file, filterOffset, filterSize);
    if filter == None { return None; }
    var reader := new SSTableReader(index, filter.value, file);
    r := Some(reader);
  }

  ghost function PrependTo(index: seq<IndexEntry>, more: Option<seq<IndexEntry>>): Option<seq<IndexEntry>> {
    match more case None => None case Some(es) => Some(index + es)
  }

  lemma PrependStep(index: seq<IndexEntry>, e: IndexEntry, more: Option<seq<IndexEntry>>)
    ensures PrependTo(index, PrependTo([e], more)) == PrependTo(index + [e], more)
  {
    if more.Some? { assert index + ([e] + more.value) == (index + [e]) + more.value; }
  }
}
