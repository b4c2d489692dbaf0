/** The manifest (src/version.cpp): the table files of every level and the next file number, with a checksum. */
module Manifests {
  import opened Bytes
  import opened Coding
  import Crc32c

  const MAX_LEVELS: nat := 6
  const MAGIC: bv64 := 0x436c6f6d444d4631

  datatype FileMeta = FileMeta(number: nat, minKey: Bytes, maxKey: Bytes, fileSize: nat)

  /** What a manifest records. */
  datatype Manifest = Manifest(next: nat, levels: seq<seq<FileMeta>>)

  const NO_FILES: seq<seq<FileMeta>> := [[], [], [], [], [], []]
  const INITIAL: Manifest := Manifest(1, NO_FILES)

  // ---- Layout ----

  function EncodeMeta(m: FileMeta): Bytes {
    Fixed64(U64(m.number)) + Fixed64(U64(m.fileSize)) + LengthPrefixed(m.minKey) + LengthPrefixed(m.maxKey)
  }

  function EncodeMetas(ms: seq<FileMeta>): Bytes {
    if ms == [] then [] else EncodeMeta(ms[0]) + EncodeMetas(ms[1..])
  }

  function EncodeLevel(ms: seq<FileMeta>): Bytes {
    Fixed32(U32(|ms|)) + EncodeMetas(ms)
  }

  function EncodeLevels(levels: seq<seq<FileMeta>>): Bytes {
    if levels == [] then [] else EncodeLevel(levels[0]) + EncodeLevels(levels[1..])
  }

  function Header(next: nat): Bytes {
    Fixed64(MAGIC) + Fixed64(U64(next)) + Fixed32(U32(MAX_LEVELS))
  }

  function Body(m: Manifest): Bytes {
    Header(m.next) + EncodeLevels(m.levels)
  }

  /** The bytes Version::Save leaves in the manifest file. */
  function Encode(m: Manifest): Bytes {
    Fixed32(Crc32c.Value(Body(m))) + Body(m)
  }

  // ---- Parsing ----

  function DecodeMeta(s: Bytes): Option<(FileMeta, Bytes)> {
    if |s| < 16 then None
    else
      match DecodeLengthPrefixed(s[16..])
      case None => None
      case Some((minKey, rest)) =>
        match DecodeLengthPrefixed(rest)
        case None => None
        case Some((maxKey, rest')) =>
          Some((FileMeta(N64(DecodeFixed64(s)), minKey, maxKey, N64(DecodeFixed64(s[8..]))), rest'))
  }

  function DecodeMetas(s: Bytes, count: nat): Option<(seq<FileMeta>, Bytes)>
    decreases count
  {
    if count == 0 then Some(([], s))
    else
      match DecodeMeta(s)
      case None => None
      case Some((m, rest)) =>
        match DecodeMetas(rest, count - 1)
        case None => None
        case Some((ms, rest')) => Some(([m] + ms, rest'))
  }

  function DecodeLevel(s: Bytes): Option<(seq<FileMeta>, Bytes)> {
    if |s| < 4 then None else DecodeMetas(s[4..], N32(DecodeFixed32(s)))
  }

  function DecodeLevels(s: Bytes, n: nat): Option<seq<seq<FileMeta>>>
    decreases n
  {
    if n == 0 then Some([])
    else
      match DecodeLevel(s)
      case None => None
      case Some((ms, rest)) =>
        match DecodeLevels(rest, n - 1)
        case None => None
        case Some(levels) => Some([ms] + levels)
  }

  /** Version::Load: None where it reports Corruption. */
  function Decode(buf: Bytes): Option<Manifest> {
    if |buf| < 4 then None
    else
      var body := buf[4..];
      if Crc32c.Value(body) != DecodeFixed32(buf) then None
      else if |body| < 20 then None
      else if DecodeFixed64(body) != MAGIC || DecodeFixed32(body[16..]) != U32(MAX_LEVELS) then None
      else
        match DecodeLevels(body[20..], MAX_LEVELS)
        case None => None
        case Some(levels) => Some(Manifest(N64(DecodeFixed64(body[8..])), levels))
  }

  // ---- Round trip ----

  predicate MetaFits(m: FileMeta) {
    m.number < TWO_64 && m.fileSize < TWO_64 && |m.minKey| < TWO_32 && |m.maxKey| < TWO_32
  }

  predicate MetasFit(ms: seq<FileMeta>) {
    |ms| < TWO_32 && forall i :: 0 <= i < |ms| ==> MetaFits(ms[i])
  }

  /** Every number, size, key length and file count is inside its machine width. */
  predicate ManifestFits(m: Manifest) {
    m.next < TWO_64 && |m.levels| == MAX_LEVELS && forall l :: 0 <= l < |m.levels| ==> MetasFit(m.levels[l])
  }

  lemma Fixed64Length(v: bv64)
    ensures |Fixed64(v)| == 8
  {
  }

  lemma Fixed32Length(v: bv32)
    ensures |Fixed32(v)| == 4
  {
  }

  lemma MetaRoundTrip(m: FileMeta, rest: Bytes)
    requires MetaFits(m)
    ensures DecodeMeta(EncodeMeta(m) + rest) == Some((m, rest))
  {
    hide Fixed64, DecodeFixed64, U64, N64, LengthPrefixed, DecodeLengthPrefixed;
    Fixed64Length(U64(m.number));
    Fixed64Length(U64(m.fileSize));
    var keys := LengthPrefixed(m.minKey) + (LengthPrefixed(m.maxKey) + rest);
    var s := EncodeMeta(m) + rest;
    assert s == Fixed64(U64(m.number)) + (Fixed64(U64(m.fileSize)) + keys);
    assert s[8..] == Fixed64(U64(m.fileSize)) + keys;
    assert s[16..] == keys;
    Size64RoundTrip(m.number, Fixed64(U64(m.fileSize)) + keys);
    Size64RoundTrip(m.fileSize, keys);
    LengthPrefixedRoundTrip(m.minKey, LengthPrefixed(m.maxKey) + rest);
    LengthPrefixedRoundTrip(m.maxKey, rest);
  }

  lemma {:induction false} MetasRoundTrip(ms: seq<FileMeta>, rest: Bytes)
    requires forall i :: 0 <= i < |ms| ==> MetaFits(ms[i])
    ensures DecodeMetas(EncodeMetas(ms) + rest, |ms|) == Some((ms, rest))
    decreases |ms|
  {
    hide EncodeMeta, DecodeMeta, MetaFits;
    if ms == [] {
      assert EncodeMetas(ms) + rest == rest;
    } else {
      assert EncodeMetas(ms) + rest == EncodeMeta(ms[0]) + (EncodeMetas(ms[1..]) + rest);
      MetaRoundTrip(ms[0], EncodeMetas(ms[1..]) + rest);
      MetasRoundTrip(ms[1..], rest);
      assert ms == [ms[0]] + ms[1..];
    }
  }

  lemma LevelRoundTrip(ms: seq<FileMeta>, rest: Bytes)
    requires MetasFit(ms)
    ensures DecodeLevel(EncodeLevel(ms) + rest) == Some((ms, rest))
  {
    hide Fixed32, DecodeFixed32, U32, N32, EncodeMetas, DecodeMetas, MetaFits;
    Fixed32Length(U32(|ms|));
    var s := EncodeLevel(ms) + rest;
    assert s == Fixed32(U32(|ms|)) + (EncodeMetas(ms) + rest);
    assert s[4..] == EncodeMetas(ms) + rest;
    Fixed32RoundTrip(U32(|ms|), EncodeMetas(ms) + rest);
    CastValue32(|ms|);
    MetasRoundTrip(ms, rest);
  }

  lemma {:induction false} LevelsRoundTrip(levels: seq<seq<FileMeta>>)
    requires forall l :: 0 <= l < |levels| ==> MetasFit(levels[l])
    ensures DecodeLevels(EncodeLevels(levels), |levels|) == Some(levels)
    decreases |levels|
  {
    hide EncodeLevel, DecodeLevel, MetasFit;
    if levels != [] {
      LevelRoundTrip(levels[0], EncodeLevels(levels[1..]));
      LevelsRoundTrip(levels[1..]);
      assert levels == [levels[0]] + levels[1..];
    }
  }

  /** Loading the bytes that Save writes restores the next file number and every level exactly. */
  lemma ManifestRoundTrip(m: Manifest)
    requires ManifestFits(m)
    ensures Decode(Encode(m)) == Some(m)
  {
    hide Fixed32, DecodeFixed32, Fixed64, DecodeFixed64, U32, N32, U64, N64, EncodeLevels, DecodeLevels, Crc32c.Value,
      MetasFit;
    var body, buf := Body(m), Encode(m);
    var crc := Crc32c.Value(body);
    Fixed32Length(crc);
    assert buf[4..] == body;
    Fixed32RoundTrip(crc, body);
    Fixed64Length(MAGIC);
    Fixed64Length(U64(m.next));
    Fixed32Length(U32(MAX_LEVELS));
    var r2 := Fixed32(U32(MAX_LEVELS)) + EncodeLevels(m.levels);
    var r1 := Fixed64(U64(m.next)) + r2;
    assert body == Fixed64(MAGIC) + r1;
    assert body[8..] == r1;
    assert body[16..] == r2;
    assert body[20..] == EncodeLevels(m.levels);
    Fixed64RoundTrip(MAGIC, r1);
    Size64RoundTrip(m.next, r2);
    Fixed32RoundTrip(U32(MAX_LEVELS), EncodeLevels(m.levels));
    LevelsRoundTrip(m.levels);
  }

  // ---- The code's loops ----

  /** A manifest altered inside four consecutive bytes behind its checksum is refused. */
  lemma BurstRefused(m: Manifest, pre: Bytes, v: Bytes, w: Bytes, post: Bytes)
    requires Body(m) == pre + v + post && |v| == |w| <= 4 && v != w
    ensures |Encode(m)| >= 4 && Decode(Encode(m)[..4] + (pre + w + post)) == None
  {
    hide Body, DecodeLevels, Crc32c.Value, Fixed32, DecodeFixed32;
    var crc := Crc32c.Value(Body(m));
    Fixed32Length(crc);
    Fixed32RoundTrip(crc, pre + w + post);
    Crc32c.BurstDetected(pre, v, w, post);
    var buf := Encode(m)[..4] + (pre + w + post);
    assert Encode(m)[..4] == Fixed32(crc);
    assert buf[4..] == pre + w + post;
  }

  /** Whatever Load accepts begins with its checksum, the magic number and, behind the counter, six levels. */
  lemma AcceptedHeader(buf: Bytes)
    requires Decode(buf).Some?
    ensures |buf| >= 24 && buf[..4] == Fixed32(Crc32c.Value(buf[4..]))
    ensures buf[4..12] == Fixed64(0x436c6f6d444d4631) && buf[20..24] == Fixed32(U32(6))
  {
    hide DecodeLevels, Crc32c.Value, Fixed32, Fixed64, DecodeFixed32, DecodeFixed64, U32, N64;
    var body := buf[4..];
    Fixed32Onto(buf);
    Fixed64Onto(body);
    Fixed32Onto(body[16..]);
    assert body[..8] == buf[4..12] && body[16..][..4] == buf[20..24];
  }

  lemma {:induction false} EncodeMetasSnoc(ms: seq<FileMeta>, i: nat)
    requires i < |ms|
    ensures EncodeMetas(ms[..i + 1]) == EncodeMetas(ms[..i]) + EncodeMeta(ms[i])
    decreases i
  {
    hide EncodeMeta;
    if i == 0 {
      assert ms[..1][1..] == [] && ms[..0] == [];
    } else {
      EncodeMetasSnoc(ms[1..], i - 1);
      assert ms[..i + 1][1..] == ms[1..][..i] && ms[..i][1..] == ms[1..][..i - 1];
    }
  }

  lemma {:induction false} EncodeLevelsSnoc(levels: seq<seq<FileMeta>>, i: nat)
    requires i < |levels|
    ensures EncodeLevels(levels[..i + 1]) == EncodeLevels(levels[..i]) + EncodeLevel(levels[i])
    decreases i
  {
    hide EncodeLevel;
    if i == 0 {
      assert levels[..1][1..] == [] && levels[..0] == [];
    } else {
      EncodeLevelsSnoc(levels[1..], i - 1);
      assert levels[..i + 1][1..] == levels[1..][..i] && levels[..i][1..] == levels[1..][..i - 1];
    }
  }

  lemma MetaShape(before: Bytes, m: FileMeta)
    ensures before + Fixed64(U64(m.number)) + Fixed64(U64(m.fileSize)) + LengthPrefixed(m.minKey) +
            LengthPrefixed(m.maxKey) == before + EncodeMeta(m)
  {
    hide Fixed64, U64, LengthPrefixed;
  }

  lemma NoMetas()
    ensures EncodeMetas([]) == [] && EncodeLevels([]) == []
  {
  }

  datatype LoadStatus = LoadOk | NotFound | Corruption

  class Version {
    var nextFileNumber: nat
    var levels: seq<seq<FileMeta>>

    constructor ()
      ensures View() == INITIAL
    {
      nextFileNumber := 1;
      levels := NO_FILES;
    }

    ghost function View(): Manifest
      reads this
    {
      Manifest(nextFileNumber, levels)
    }

    /** Version::Save: the bytes that rename puts in place of the manifest. */
    method Save() returns (out: Bytes)
      requires |levels| == MAX_LEVELS
      ensures out == Encode(View())
    {
      hide Fixed32, Fixed64, U32, U64, LengthPrefixed, Crc32c.Value, Crc32c.Extend, EncodeMeta, EncodeMetas,
        EncodeLevels;
      var buf := Header(nextFileNumber);
      var lvl := 0;
      NoMetas();
      assert levels[..0] == [];
      while lvl < MAX_LEVELS
        invariant 0 <= lvl <= MAX_LEVELS
        invariant buf == Header(nextFileNumber) + EncodeLevels(levels[..lvl])
      {
        var files := levels[lvl];
        ghost var start := buf;
        buf := buf + Fixed32(U32(|files|));
        ghost var counted := buf;
        var i := 0;
        assert files[..0] == [];
        while i < |files|
          invariant 0 <= i <= |files|
          invariant buf == counted + EncodeMetas(files[..i])
        {
          ghost var before := buf;
          buf := buf + Fixed64(U64(files[i].number));
          buf := buf + Fixed64(U64(files[i].fileSize));
          buf := PutLengthPrefixedSlice(buf, files[i].minKey);
          buf := PutLengthPrefixedSlice(buf, files[i].maxKey);
          MetaShape(before, files[i]);
          EncodeMetasSnoc(files, i);
          i := i + 1;
        }
        assert files[..i] == files;
        assert buf == start + EncodeLevel(files);
        EncodeLevelsSnoc(levels, lvl);
        lvl := lvl + 1;
      }
      assert levels[..lvl] == levels;
      var crc := Crc32c.ExtendByTable(0, buf);
      ValueDef(buf);
      out := Fixed32(crc) + buf;
    }

    static lemma ValueDef(data: Bytes)
      ensures Crc32c.Value(data) == Crc32c.Extend(0, data)
    {
      hide Crc32c.Extend;
    }

    /** Version::Load. A missing file changes nothing. */
    method Load(file: Option<Bytes>) returns (s: LoadStatus)
      modifies this
      ensures file == None ==> s == NotFound && View() == old(View())
      ensures file.Some? ==> (s == LoadOk <==> Decode(file.value).Some?) && s != NotFound
      ensures s == LoadOk ==> View() == Decode(file.value).value
    {
      hide DecodeFixed32, DecodeFixed64, U32, N32, N64, DecodeMeta, DecodeMetas, Crc32c.Value, Crc32c.Extend;
      if file == None { return NotFound; }
      var buf := file.value;
      if |buf| < 4 { return Corruption; }
      var body := buf[4..];
      var computed := Crc32c.ExtendByTable(0, body);
      ValueDef(body);
      if computed != DecodeFixed32(buf) { return Corruption; }
      var p := 0;
      if |body| - p < 8 || DecodeFixed64(body[p..]) != MAGIC { return Corruption; }
      assert body[0..] == body;
      p := p + 8;
      if |body| - p < 8 { return Corruption; }
      nextFileNumber := N64(DecodeFixed64(body[p..]));
      p := p + 8;
      if |body| - p < 4 { return Corruption; }
      if DecodeFixed32(body[p..]) != U32(MAX_LEVELS) { return Corruption; }
      p := p + 4;
      var parsed: seq<seq<FileMeta>> := [];
      var rest := body[p..];
      ghost var whole := DecodeLevels(rest, MAX_LEVELS);
      assert whole.Some? ==> [] + whole.value == whole.value;
      var lvl := 0;
      while lvl < MAX_LEVELS
        invariant 0 <= lvl <= MAX_LEVELS
        invariant whole == LevelsAfter(parsed, DecodeLevels(rest, MAX_LEVELS - lvl))
        modifies {}
      {
        var files := LoadLevel(rest);
        if files == None { return Corruption; }
        LevelsStep(parsed, files.value.0, DecodeLevels(files.value.1, MAX_LEVELS - lvl - 1));
        parsed := parsed + [files.value.0];
        rest := files.value.1;
        lvl := lvl + 1;
      }
      assert parsed + [] == parsed;
      levels := parsed;
      s := LoadOk;
    }
  }

  ghost function LevelsAfter(done: seq<seq<FileMeta>>, more: Option<seq<seq<FileMeta>>>): Option<seq<seq<FileMeta>>> {
    match more case None => None case Some(ls) => Some(done + ls)
  }

  lemma LevelsStep(done: seq<seq<FileMeta>>, l: seq<FileMeta>, more: Option<seq<seq<FileMeta>>>)
    ensures LevelsAfter(done, LevelsAfter([l], more)) == LevelsAfter(done + [l], more)
  {
    if more.Some? { assert done + ([l] + more.value) == (done + [l]) + more.value; }
  }

  ghost function MetasAfter(done: seq<FileMeta>, more: Option<(seq<FileMeta>, Bytes)>): Option<(seq<FileMeta>, Bytes)> {
    match more case None => None case Some((ms, rest)) => Some((done + ms, rest))
  }

  lemma MetasStep(done: seq<FileMeta>, m: FileMeta, more: Option<(seq<FileMeta>, Bytes)>)
    ensures MetasAfter(done, MetasAfter([m], more)) == MetasAfter(done + [m], more)
  {
    if more.Some? { assert done + ([m] + more.value.0) == (done + [m]) + more.value.0; }
  }

  /** The part of Load that reads one level. */
  method LoadLevel(s: Bytes) returns (r: Option<(seq<FileMeta>, Bytes)>)
    ensures r == DecodeLevel(s)
  {
    hide DecodeFixed32, DecodeFixed64, N32, N64, DecodeLengthPrefixed;
    if |s| < 4 { return None; }
    var count := N32(DecodeFixed32(s));
    var rest := s[4..];
    var files: seq<FileMeta> := [];
    ghost var whole := DecodeMetas(rest, count);
    assert whole.Some? ==> [] + whole.value.0 == whole.value.0;
    var i := 0;
    while i < count
      invariant 0 <= i <= count
      invariant whole == MetasAfter(files, DecodeMetas(rest, count - i))
    {
      ghost var here := rest;
      if |rest| < 16 { return None; }
      var number := N64(DecodeFixed64(rest));
      var size := N64(DecodeFixed64(rest[8..]));
      var minKey := GetLengthPrefixedSlice(rest[16..]);
      if minKey == None { return None; }
      var maxKey := GetLengthPrefixedSlice(minKey.value.1);
      if maxKey == None { return None; }
      var m := FileMeta(number, minKey.value.0, maxKey.value.0, size);
      rest := maxKey.value.1;
      assert DecodeMeta(here) == Some((m, rest));
      MetasStep(files, m, DecodeMetas(rest, count - i - 1));
      files := files + [m];
      i := i + 1;
    }
    assert files + [] == files;
    r := Some((files, rest));
  }
}
