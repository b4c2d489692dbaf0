/** Small files byte by byte: what the formats put on disk, not only that they read back what they wrote. */
module KnownBytes {
  import opened Bytes
  import opened Coding
  import opened Kv
  import Bloom
  import Crc32c
  import Manifests
  import SSTable
  import Wal
  import WriteBatches

  // ---- Words ----

  /** A small size in eight bytes: the lowest byte first. */
  lemma ShortSize(n: nat)
    requires n < 256
    ensures Fixed64(U64(n)) == [ByteOf(n), 0, 0, 0, 0, 0, 0, 0]
  {
    hide Fixed32, U32, Pack64, ByteOf;
    FixedHalves(U32(n), U32(0));
    Wal.ShortLength(n);
    Wal.ShortLength(0);
    Wal.ZeroByte();
  }

  lemma Digits()
    ensures ByteOf(1) == 1 && ByteOf(2) == 2 && ByteOf(3) == 3 && ByteOf(5) == 5 && ByteOf(6) == 6
    ensures ByteOf(9) == 9 && ByteOf(10) == 10 && ByteOf(15) == 15
  {
    assert CountTo(2) == CountTo(1) + 1 && CountTo(4) == CountTo(3) + 1 && CountTo(6) == CountTo(5) + 1;
    assert CountTo(8) == CountTo(7) + 1 && CountTo(10) == CountTo(9) + 1 && CountTo(12) == CountTo(11) + 1;
    assert CountTo(14) == CountTo(13) + 1;
  }

  lemma ShortString(value: Bytes)
    requires 1 <= |value| <= 2
    ensures LengthPrefixed(value) == [|value| as byte] + value
  {
    hide ByteOf, U32;
    Digits();
    Wal.ShortWord(1);
    Wal.ShortWord(2);
    OneByteVarints();
  }

  lemma OneByteVarints()
    ensures Varint32(Pack32(1, 0, 0, 0)) == [1] && Varint32(Pack32(2, 0, 0, 0)) == [2]
  {
  }

  // ---- The manifest ----

  lemma ManifestMagic()
    ensures Fixed64(Manifests.MAGIC) == [49, 70, 77, 68, 109, 111, 108, 67]
  {
  }

  /** The manifest of a new store: checksum, magic number, next file number 1, six levels, and no file in any. */
  lemma FirstManifest()
    ensures var body: Bytes := [49, 70, 77, 68, 109, 111, 108, 67] + [1, 0, 0, 0, 0, 0, 0, 0] + [6, 0, 0, 0] +
                               [0, 0, 0, 0, 0, 0, 0, 0, 0, 0, 0, 0, 0, 0, 0, 0, 0, 0, 0, 0, 0, 0, 0, 0];
            Manifests.Encode(Manifests.INITIAL) == Fixed32(Crc32c.Value(body)) + body
  {
    hide Fixed32, Crc32c.Value, Manifests.Header, Manifests.EncodeLevels;
    FirstHeader();
    SixEmptyLevels();
  }

  lemma FirstHeader()
    ensures Manifests.Header(1) == [49, 70, 77, 68, 109, 111, 108, 67] + [1, 0, 0, 0, 0, 0, 0, 0] + [6, 0, 0, 0]
  {
    hide Fixed32, Fixed64, U32, U64, ByteOf;
    ManifestMagic();
    Digits();
    ShortSize(1);
    Wal.ShortLength(6);
  }

  lemma SixEmptyLevels()
    ensures Manifests.EncodeLevels(Manifests.NO_FILES) ==
            [0, 0, 0, 0, 0, 0, 0, 0, 0, 0, 0, 0, 0, 0, 0, 0, 0, 0, 0, 0, 0, 0, 0, 0]
  {
    hide Fixed32, U32, ByteOf;
    Wal.ShortLength(0);
    Wal.ZeroByte();
    EmptyLevels(Manifests.NO_FILES);
  }

  lemma {:induction false} EmptyLevels(levels: seq<seq<Manifests.FileMeta>>)
    requires forall l :: 0 <= l < |levels| ==> levels[l] == []
    ensures Manifests.EncodeLevels(levels) == seq(4 * |levels|, _ => 0)
  {
    hide Fixed32, U32, ByteOf;
    Wal.ShortLength(0);
    Wal.ZeroByte();
    if levels != [] {
      EmptyLevels(levels[1..]);
      assert Manifests.EncodeLevel([]) == [0, 0, 0, 0] + [];
    }
  }

  /** One file entry: number 3, size 5, smallest key "a", largest key "bc". */
  lemma FileEntry()
    ensures Manifests.EncodeMeta(Manifests.FileMeta(3, [97], [98, 99], 5)) ==
            [3, 0, 0, 0, 0, 0, 0, 0, 5, 0, 0, 0, 0, 0, 0, 0, 1, 97, 2, 98, 99]
  {
    hide LengthPrefixed, Fixed64, U64, ByteOf;
    Digits();
    ShortSize(3);
    ShortSize(5);
    ShortString([97]);
    ShortString([98, 99]);
  }

  // ---- A batch and a table ----

  /** put "a" -> "b", delete "c". */
  lemma SmallBatch()
    ensures WriteBatches.EncodeOps([Put([97], [98]), Delete([99])]) == [1, 1, 97, 1, 98, 2, 1, 99]
  {
    hide LengthPrefixed;
    ShortString([97]);
    ShortString([98]);
    ShortString([99]);
    var a: Op, b: Op := Put([97], [98]), Delete([99]);
    assert [a, b][1..] == [b] && [b][1..] == [];
    assert WriteBatches.EncodeOps([b]) == WriteBatches.EncodeOp(b) + WriteBatches.EncodeOps([]);
  }

  /** The log record of a put of "a" -> "b": masked checksum, length 5, payload. */
  lemma SmallRecord()
    ensures Wal.Frame([1, 1, 97, 1, 98]) ==
            Fixed32(Crc32c.Mask(Crc32c.Value([5, 0, 0, 0, 1, 1, 97, 1, 98]))) + [5, 0, 0, 0] + [1, 1, 97, 1, 98]
  {
    hide Fixed32, U32, ByteOf, Crc32c.Mask, Crc32c.Value;
    Digits();
    Wal.ShortLength(5);
    assert Wal.Body([1, 1, 97, 1, 98]) == [5, 0, 0, 0, 1, 1, 97, 1, 98];
  }

  lemma TableMagic()
    ensures Fixed64(SSTable.MAGIC) == [1, 0, 66, 68, 109, 111, 108, 67]
  {
  }

  /**
   * A table of the one entry "a" -> "b": its five data bytes, its index entry at offset 0, a filter of 64 bits, and
   * a footer that says where index and filter are.
   */
  lemma SmallTable(p: SSTable.FilterParams)
    requires p.bitsPerKey <= 64
    ensures var filter := Bloom.Filter([[97]], p.bitsPerKey, p.probes);
            |filter| == 9 &&
            SSTable.EncodeTable([Entry([97], Live([98]))], p) ==
            [1, 1, 97, 1, 98] + [1, 97, 0, 0, 0, 0, 0, 0, 0, 0] + filter +
            [5, 0, 0, 0, 0, 0, 0, 0, 10, 0, 0, 0, 0, 0, 0, 0, 15, 0, 0, 0, 0, 0, 0, 0, 9, 0, 0, 0, 0, 0, 0, 0] +
            [1, 0, 66, 68, 109, 111, 108, 67]
  {
    hide Bloom.Filter, LengthPrefixed, Fixed64, U64, ByteOf;
    var e := Entry([97], Live([98]));
    Bloom.FilterIs([[97]], p.bitsPerKey, p.probes);
    OneEntry(e);
    OneIndexEntry(e);
    SmallFooter();
    assert Keys([e]) == [[97]];
  }

  lemma OneEntry(e: Entry)
    requires e == Entry([97], Live([98]))
    ensures SSTable.Data([e]) == [1, 1, 97, 1, 98]
  {
    hide LengthPrefixed;
    ShortString([97]);
    ShortString([98]);
    assert [e][1..] == [];
    assert SSTable.Data([e]) == SSTable.EncodeEntry(e) + SSTable.Data([]);
  }

  lemma OneIndexEntry(e: Entry)
    requires e == Entry([97], Live([98]))
    ensures SSTable.EncodeIndex(SSTable.IndexOf([e], 0)) == [1, 97, 0, 0, 0, 0, 0, 0, 0, 0]
  {
    hide LengthPrefixed, Fixed64, U64, ByteOf, SSTable.EncodeEntry;
    ShortString([97]);
    ShortSize(0);
    Wal.ZeroByte();
    assert [e][1..] == [];
    var x := SSTable.IndexEntry([97], 0);
    assert SSTable.IndexOf([e], 0) == [x] && [x][1..] == [];
    assert SSTable.EncodeIndex([x]) == SSTable.EncodeIndexEntry(x) + SSTable.EncodeIndex([]);
  }

  lemma SmallFooter()
    ensures SSTable.Footer(5, 10, 15, 9) ==
            [5, 0, 0, 0, 0, 0, 0, 0, 10, 0, 0, 0, 0, 0, 0, 0, 15, 0, 0, 0, 0, 0, 0, 0, 9, 0, 0, 0, 0, 0, 0, 0] +
            [1, 0, 66, 68, 109, 111, 108, 67]
  {
    hide Fixed64, U64, ByteOf;
    TableMagic();
    Digits();
    ShortSize(5);
    ShortSize(10);
    ShortSize(15);
    ShortSize(9);
  }
}
