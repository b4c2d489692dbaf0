/** The write-ahead log (src/wal.cpp): framed records, and the replay that stops at the first unreadable one. */
module Wal {
  import opened Bytes
  import opened Coding
  import Crc32c

  const HEADER: nat := 8

  function Body(payload: Bytes): Bytes {
    Fixed32(U32(|payload|)) + payload
  }

  /** One record on disk: masked checksum of length and payload, then length and payload. */
  function Frame(payload: Bytes): Bytes {
    Fixed32(Crc32c.Mask(Crc32c.Value(Body(payload)))) + Body(payload)
  }

  function Frames(records: seq<Bytes>): Bytes {
    if records == [] then [] else Frame(records[0]) + Frames(records[1..])
  }

  /** The record at the front of the log and the log after it; None where replay stops. */
  function DecodeFrame(log: Bytes): (r: Option<(Bytes, Bytes)>)
    ensures r.Some? ==> |r.value.1| < |log|
  {
    if |log| < HEADER then None
    else
      var stored := Crc32c.Unmask(DecodeFixed32(log));
      var word := DecodeFixed32(log[4..]);
      var length := N32(word);
      if |log| - HEADER < length then None
      else
        var payload := log[HEADER..HEADER + length];
        if Crc32c.Value(Fixed32(word) + payload) != stored then None
        else Some((payload, log[HEADER + length..]))
  }

  /** The records replay delivers, and the bytes it leaves unread. */
  function Replay(log: Bytes): (seq<Bytes>, Bytes)
    decreases |log|
  {
    match DecodeFrame(log)
    case None => ([], log)
    case Some((payload, rest)) =>
      var (records, tail) := Replay(rest);
      ([payload] + records, tail)
  }

  predicate Fits(payload: Bytes) {
    |payload| < TWO_32
  }

  predicate AllFit(records: seq<Bytes>) {
    forall i :: 0 <= i < |records| ==> Fits(records[i])
  }

  // ---- One record ----

  lemma FrameShape(payload: Bytes)
    ensures |Frame(payload)| == HEADER + |payload|
    ensures Frame(payload)[HEADER..] == payload
    ensures Frame(payload)[..4] == Fixed32(Crc32c.Mask(Crc32c.Value(Body(payload))))
    ensures Frame(payload)[4..8] == Fixed32(U32(|payload|))
  {
    hide Crc32c.Mask, Crc32c.Value, U32;
  }

  /** A record of at most 2^32 - 1 bytes is read back, whatever follows it. */
  lemma FrameRoundTrip(payload: Bytes, rest: Bytes)
    requires Fits(payload)
    ensures DecodeFrame(Frame(payload) + rest) == Some((payload, rest))
  {
    hide Crc32c.Mask, Crc32c.Unmask, Crc32c.Value, U32, N32, Fixed32, DecodeFixed32;
    var word := U32(|payload|);
    var crc := Crc32c.Mask(Crc32c.Value(Body(payload)));
    var log := Frame(payload) + rest;
    FixedLength(word);
    FixedLength(crc);
    assert log == Fixed32(crc) + (Body(payload) + rest);
    assert log[4..] == Fixed32(word) + (payload + rest);
    Fixed32RoundTrip(crc, Body(payload) + rest);
    Fixed32RoundTrip(word, payload + rest);
    Crc32c.MaskRoundTrip(Crc32c.Value(Body(payload)));
    CastValue32(|payload|);
    assert log[HEADER..] == payload + rest;
    assert log[HEADER..HEADER + |payload|] == payload;
    assert log[HEADER + |payload|..] == rest;
  }

  lemma FixedLength(v: bv32)
    ensures |Fixed32(v)| == 4
  {
  }

  /** Whatever replay accepts is exactly the frame of what it delivers. */
  lemma FrameOnto(log: Bytes)
    ensures var d := DecodeFrame(log);
            d.Some? ==> Fits(d.value.0) && log == Frame(d.value.0) + d.value.1
  {
    hide Crc32c.Mask, Crc32c.Unmask, Crc32c.Value, U32, N32, Fixed32, DecodeFixed32;
    var d := DecodeFrame(log);
    if d.Some? {
      var word := DecodeFixed32(log[4..]);
      Range32(word);
      CastInverse(word);
      Fixed32Onto(log);
      Fixed32Onto(log[4..]);
      Crc32c.MaskRoundTrip(DecodeFixed32(log));
      assert log[4..][..4] == log[4..8];
      assert log == log[..4] + log[4..8] + log[8..8 + N32(word)] + log[8 + N32(word)..];
    }
  }

  // ---- Whole logs ----

  lemma {:induction false} FramesAppend(a: seq<Bytes>, b: seq<Bytes>)
    ensures Frames(a + b) == Frames(a) + Frames(b)
  {
    hide Frame;
    if a == [] {
      assert a + b == b;
    } else {
      assert (a + b)[1..] == a[1..] + b;
      FramesAppend(a[1..], b);
    }
  }

  lemma FramesOne(p: Bytes)
    ensures Frames([p]) == Frame(p)
  {
    hide Frame;
    assert [p][1..] == [];
  }

  /** A log is the frames of what replay delivers, followed by a tail that does not start with a record. */
  lemma {:induction false} ReplaySplits(log: Bytes)
    ensures var (records, tail) := Replay(log);
            AllFit(records) && log == Frames(records) + tail && DecodeFrame(tail) == None
    decreases |log|
  {
    hide DecodeFrame, Frame;
    FrameOnto(log);
    var d := DecodeFrame(log);
    if d.Some? {
      DecodeShrinks(log);
      ReplaySplits(d.value.1);
      var (rs, tail) := Replay(d.value.1);
      assert ([d.value.0] + rs)[1..] == rs;
    }
  }

  lemma DecodeShrinks(log: Bytes)
    ensures var d := DecodeFrame(log); d.Some? ==> |d.value.1| < |log|
  {
    hide DecodeFrame;
  }

  /** Replay reads every whole record that is there and then goes on with the rest. */
  lemma {:induction false} ReplayFrames(records: seq<Bytes>, rest: Bytes)
    requires AllFit(records)
    ensures Replay(Frames(records) + rest) == (records + Replay(rest).0, Replay(rest).1)
  {
    hide DecodeFrame, Frame;
    if records == [] {
      assert Frames(records) + rest == rest;
      assert records + Replay(rest).0 == Replay(rest).0;
    } else {
      var more := Frames(records[1..]) + rest;
      assert Frames(records) + rest == Frame(records[0]) + more;
      FrameRoundTrip(records[0], more);
      ReplayFrames(records[1..], rest);
      assert [records[0]] + (records[1..] + Replay(rest).0) == records + Replay(rest).0;
    }
  }

  /** Replay is the longest record sequence whose frames are a prefix of the log. */
  lemma ReplayLongest(log: Bytes, records: seq<Bytes>)
    requires AllFit(records) && Frames(records) <= log
    ensures records <= Replay(log).0
  {
    hide *;
    hide Replay, Frames;
    var rest := log[|Frames(records)|..];
    assert log == Frames(records) + rest;
    ReplayFrames(records, rest);
  }

  /** And it is the only one that is followed by no further record. */
  lemma ReplayUnique(log: Bytes, records: seq<Bytes>, tail: Bytes)
    requires AllFit(records) && log == Frames(records) + tail
    ensures Replay(log) == (records, tail) <==> DecodeFrame(tail) == None
  {
    hide DecodeFrame, Frame, Frames;
    ReplayFrames(records, tail);
    ReplaySplits(log);
    assert DecodeFrame(tail) == None ==> Replay(tail) == ([], tail);
    assert records + [] == records;
  }

  /** A record cut short is not a record. */
  lemma TornFrame(payload: Bytes, n: nat)
    requires Fits(payload) && n < |Frame(payload)|
    ensures DecodeFrame(Frame(payload)[..n]) == None
  {
    hide Crc32c.Mask, Crc32c.Value, U32, N32, Fixed32, DecodeFixed32;
    var torn := Frame(payload)[..n];
    FixedLength(U32(|payload|));
    FixedLength(Crc32c.Mask(Crc32c.Value(Body(payload))));
    if n >= HEADER {
      assert torn[4..] == Fixed32(U32(|payload|)) + payload[..n - HEADER];
      Fixed32RoundTrip(U32(|payload|), payload[..n - HEADER]);
      CastValue32(|payload|);
    }
  }

  /** The number of records that lie wholly inside the first n bytes of the frames. */
  function WholeRecords(records: seq<Bytes>, n: nat): (k: nat)
    ensures k <= |records|
  {
    if records == [] || n < |Frame(records[0])| then 0
    else 1 + WholeRecords(records[1..], n - |Frame(records[0])|)
  }

  /** Replaying any byte prefix of a well-framed log gives exactly the records wholly inside it. */
  lemma {:induction false} ReplayPrefix(records: seq<Bytes>, n: nat)
    requires AllFit(records) && n <= |Frames(records)|
    ensures Replay(Frames(records)[..n]).0 == records[..WholeRecords(records, n)]
    ensures Frames(records[..WholeRecords(records, n)]) <= Frames(records)[..n]
  {
    hide DecodeFrame, Frame;
    if records == [] {
      TornNothing();
      assert Frames(records)[..n] == [];
      assert records[..0] == [];
    } else {
      var f := Frame(records[0]);
      if n < |f| {
        assert Frames(records)[..n] == f[..n];
        TornFrame(records[0], n);
        assert records[..0] == [];
      } else {
        var m := n - |f|;
        var k := WholeRecords(records[1..], m);
        assert Frames(records)[..n] == f + Frames(records[1..])[..m];
        FrameRoundTrip(records[0], Frames(records[1..])[..m]);
        ReplayPrefix(records[1..], m);
        assert records[..1 + k] == [records[0]] + records[1..][..k];
        assert records[..1 + k][1..] == records[1..][..k];
      }
    }
  }

  lemma TornNothing()
    ensures DecodeFrame([]) == None && Replay([]) == ([], [])
  {
  }

  // ---- Damage ----

  /** A payload altered inside four consecutive bytes ends replay exactly before its record. */
  lemma BurstStopsReplay(before: seq<Bytes>, pre: Bytes, v: Bytes, w: Bytes, post: Bytes, after: Bytes)
    requires AllFit(before) && Fits(pre + v + post)
    requires |v| == |w| <= 4 && v != w
    ensures var header := Frame(pre + v + post)[..HEADER];
            Replay(Frames(before) + (header + (pre + w + post) + after)).0 == before
  {
    hide DecodeFrame, Frame, Frames;
    FrameShape(pre + v + post);
    var damaged := Frame(pre + v + post)[..HEADER] + (pre + w + post) + after;
    BurstNotDecoded(pre, v, w, post, after);
    ReplayFrames(before, damaged);
    assert before + [] == before;
  }

  lemma BurstNotDecoded(pre: Bytes, v: Bytes, w: Bytes, post: Bytes, after: Bytes)
    requires Fits(pre + v + post)
    requires |v| == |w| <= 4 && v != w
    ensures |Frame(pre + v + post)| >= HEADER
    ensures DecodeFrame(Frame(pre + v + post)[..HEADER] + (pre + w + post) + after) == None
  {
    hide Crc32c.Mask, Crc32c.Unmask, Crc32c.Value, U32, N32, Fixed32, DecodeFixed32;
    var good, bad := pre + v + post, pre + w + post;
    var word := U32(|good|);
    var crc := Crc32c.Mask(Crc32c.Value(Body(good)));
    FixedLength(word);
    FixedLength(crc);
    var log := Frame(good)[..HEADER] + bad + after;
    assert log == Fixed32(crc) + (Fixed32(word) + (bad + after));
    assert log[4..] == Fixed32(word) + (bad + after);
    Fixed32RoundTrip(crc, Fixed32(word) + (bad + after));
    Fixed32RoundTrip(word, bad + after);
    CastValue32(|good|);
    Crc32c.MaskRoundTrip(Crc32c.Value(Body(good)));
    assert log[HEADER..HEADER + |bad|] == bad;
    Crc32c.BurstDetected(Fixed32(word) + pre, v, w, post);
    assert Body(good) == Fixed32(word) + pre + v + post;
    assert Fixed32(word) + bad == Fixed32(word) + pre + w + post;
  }

  // ---- Appending behind what replay left unread ----

  /** An unread header that announces more bytes than follow swallows every record appended behind it. */
  lemma HeaderSwallows(log: Bytes, payload: Bytes)
    requires var tail := Replay(log).1;
             |tail| >= HEADER && N32(DecodeFixed32(tail[4..])) > |tail| - HEADER + |Frame(payload)|
    ensures Replay(log + Frame(payload)).0 == Replay(log).0
  {
    hide N32, DecodeFixed32, Frame, Frames, DecodeFrame;
    var (records, tail) := Replay(log);
    ReplaySplits(log);
    var more := tail + Frame(payload);
    SwallowedHeader(tail, Frame(payload));
    assert log + Frame(payload) == Frames(records) + more;
    ReplayFrames(records, more);
    assert records + [] == records;
  }

  lemma SwallowedHeader(tail: Bytes, more: Bytes)
    requires |tail| >= HEADER && N32(DecodeFixed32(tail[4..])) > |tail| - HEADER + |more|
    ensures DecodeFrame(tail + more) == None
  {
    hide N32;
    assert (tail + more)[4..] == tail[4..] + more;
    assert DecodeFixed32((tail + more)[4..]) == DecodeFixed32(tail[4..]);
  }

  /** A torn record whose header survives announces the length of its whole payload. */
  lemma AnnouncedLength(payload: Bytes, k: nat)
    requires Fits(payload) && HEADER <= k <= |Frame(payload)|
    ensures |Frame(payload)| == HEADER + |payload|
    ensures N32(DecodeFixed32(Frame(payload)[..k][4..])) == |payload|
  {
    hide Crc32c.Mask, Crc32c.Value, U32, N32, Fixed32, DecodeFixed32;
    FixedLength(U32(|payload|));
    FixedLength(Crc32c.Mask(Crc32c.Value(Body(payload))));
    assert Frame(payload)[..k][4..] == Fixed32(U32(|payload|)) + payload[..k - HEADER];
    Fixed32RoundTrip(U32(|payload|), payload[..k - HEADER]);
    CastValue32(|payload|);
  }

  /** The first bytes of a record of less than 256 bytes, and its payload behind the header. */
  lemma ShortFrame(p: Bytes)
    requires 0 < |p| < 256
    ensures |Frame(p)| == 8 + |p| && Frame(p)[8..] == p
    ensures IntOf(Frame(p)[4]) == |p| && Frame(p)[5] == Frame(p)[6] == Frame(p)[7] == 0
  {
    hide Crc32c.Mask, Crc32c.Value, U32, ByteOf, IntOf;
    FrameShape(p);
    ShortLength(|p|);
    ByteOfValue(|p|);
    assert Frame(p)[4..8][0] == Frame(p)[4] && Frame(p)[4..8][1] == Frame(p)[5];
    assert Frame(p)[4..8][2] == Frame(p)[6] && Frame(p)[4..8][3] == Frame(p)[7];
  }

  lemma ShortLength(n: nat)
    requires n < 256
    ensures Fixed32(U32(n)) == [ByteOf(n), 0, 0, 0]
  {
    hide *;
    ShortWord(n);
    FixedOfPack(ByteOf(n), 0, 0, 0);
  }

  lemma ShortWord(n: nat)
    requires n < 256
    ensures U32(n) == Pack32(ByteOf(n), 0, 0, 0)
  {
    hide ByteOf, Pack32, Word32;
    ZeroByte();
    WordByQuotients(n, 0, 0, 0);
  }

  lemma FixedOfPack(b0: byte, b1: byte, b2: byte, b3: byte)
    ensures Fixed32(Pack32(b0, b1, b2, b3)) == [b0, b1, b2, b3]
  {
    hide Low, Pack32;
    Pack32Bytes(b0, b1, b2, b3);
  }

  lemma ZeroByte()
    ensures ByteOf(0) == 0
  {
  }

  /** A record replayed behind an unread tail makes the tail a prefix of the record moved along itself. */
  lemma ReplayedBehind(log: Bytes, p: Bytes) returns (rest: Bytes)
    requires Replay(log + Frame(p)).0 == Replay(log).0 + [p]
    ensures Replay(log).1 + Frame(p) == Frame(p) + rest
  {
    hide *;
    hide Replay, Frames;
    var (records, tail) := Replay(log);
    var f := Frame(p);
    ReplaySplits(log);
    ReplaySplits(log + f);
    rest := Replay(log + f).1;
    FramesAppend(records, [p]);
    FramesOne(p);
    assert Frames(records) + (tail + f) == log + f;
    assert Frames(records) + (f + rest) == Frames(records) + f + rest == log + f;
    SamePrefix(Frames(records), tail + f, f + rest);
  }

  lemma SamePrefix(a: Bytes, x: Bytes, y: Bytes)
    requires a + x == a + y
    ensures x == y
  {
    assert x == (a + x)[|a|..] && y == (a + y)[|a|..];
  }

  /** Whether none of the first five bytes is the length, which keeps the length word from lining up with them. */
  predicate LengthAbsent(p: Bytes) {
    5 <= |p| < 256 && forall i :: 0 <= i < 5 ==> IntOf(p[i]) != |p|
  }

  lemma LongTail(tail: Bytes, p: Bytes, rest: Bytes)
    requires |tail| > 8 && 0 < |p| < 256 && tail + Frame(p) == Frame(p) + rest
    ensures tail[8] == p[0]
  {
    hide *;
    var f := Frame(p);
    ShortFrame(p);
    assert tail[8] == (tail + f)[8] && (f + rest)[8] == f[8] == f[8..][0];
  }

  lemma ShortTail(tail: Bytes, p: Bytes, rest: Bytes)
    requires 0 < |tail| <= 8 && LengthAbsent(p)
    ensures tail + Frame(p) != Frame(p) + rest
  {
    hide *;
    var f, t := Frame(p), |tail|;
    LengthBounds(p);
    ShortFrame(p);
    ZeroValue();
    assert (tail + f)[t + 4] == f[4] && (f + rest)[t + 4] == f[t + 4];
    if t >= 4 {
      assert f[t + 4] == f[8..][t - 4] == p[t - 4];
      LengthAbsentAt(p, t - 4);
    } else {
      assert f[t + 4] == 0;
    }
  }

  /**
   * Behind an unread tail, of any two payloads of the same length that differ in their first byte at least one is not
   * replayed as appended: a tail of more than a header cannot begin like both records, and a shorter one would have
   * to move the length word onto zeros or onto the payload.
   */
  lemma AppendBehindTail(log: Bytes, p: Bytes, q: Bytes)
    requires Replay(log).1 != [] && LengthAbsent(p) && |q| == |p| && p[0] != q[0]
    ensures Replay(log + Frame(p)).0 != Replay(log).0 + [p] || Replay(log + Frame(q)).0 != Replay(log).0 + [q]
  {
    hide *;
    hide Replay;
    var tail := Replay(log).1;
    if Replay(log + Frame(p)).0 == Replay(log).0 + [p] && Replay(log + Frame(q)).0 == Replay(log).0 + [q] {
      var r := ReplayedBehind(log, p);
      var s := ReplayedBehind(log, q);
      if |tail| > 8 {
        LengthBounds(p);
        LongTail(tail, p, r);
        LongTail(tail, q, s);
      } else {
        ShortTail(tail, p, r);
      }
    }
  }

  lemma LengthBounds(p: Bytes)
    requires LengthAbsent(p)
    ensures 5 <= |p| < 256
  {
  }

  lemma LengthAbsentAt(p: Bytes, i: nat)
    requires LengthAbsent(p) && i < 5
    ensures IntOf(p[i]) != |p|
  {
  }

  lemma ZeroValue()
    ensures IntOf(0) == 0
  {
  }

  /**
   * Every record appended to a log will be replayed after what is there now if and only if replay of the log
   * leaves nothing unread. Open does not truncate an unreadable tail, so this is the condition for appending.
   */
  lemma AppendReplayedIffClean(log: Bytes)
    ensures (forall p :: Fits(p) ==> Replay(log + Frame(p)).0 == Replay(log).0 + [p]) <==> Replay(log).1 == []
  {
    hide Replay, Frame, Fits;
    if Replay(log).1 == [] {
      forall p | Fits(p)
        ensures Replay(log + Frame(p)).0 == Replay(log).0 + [p]
      {
        AppendToClean(log, p);
      }
    } else {
      var p, q: Bytes := [0, 0, 0, 0, 0], [1, 0, 0, 0, 0];
      ZeroValue();
      AppendBehindTail(log, p, q);
      ShortFits(p);
      ShortFits(q);
    }
  }

  lemma ShortFits(p: Bytes)
    requires |p| < 256
    ensures Fits(p)
  {
  }

  lemma AppendToClean(log: Bytes, p: Bytes)
    requires Fits(p) && Replay(log).1 == []
    ensures Replay(log + Frame(p)) == (Replay(log).0 + [p], [])
  {
    hide *;
    hide Replay, Frames;
    var records := Replay(log).0;
    ReplaySplits(log);
    FramesAppend(records, [p]);
    FramesOne(p);
    assert log + Frame(p) == Frames(records + [p]) + [];
    AllFitSnoc(records, p);
    ReplayFrames(records + [p], []);
    TornNothing();
    assert records + [p] + [] == records + [p];
  }

  lemma AllFitSnoc(records: seq<Bytes>, p: Bytes)
    requires AllFit(records) && Fits(p)
    ensures AllFit(records + [p])
  {
  }

  // ---- The code's loops ----

  /** WriteAheadLog::AddRecord: the log with one framed record appended. */
  method AddRecord(log: Bytes, data: Bytes) returns (out: Bytes)
    ensures out == log + Frame(data)
  {
    hide *;
    var framed := Fixed32(U32(|data|)) + data;
    var value := Crc32c.ExtendByTable(0, framed);
    var record := Fixed32(Crc32c.Mask(value)) + framed;
    RecordIsFrame(data);
    out := log + record;
  }

  lemma RecordIsFrame(data: Bytes)
    ensures var framed := Fixed32(U32(|data|)) + data;
            Fixed32(Crc32c.Mask(Crc32c.Extend(0, framed))) + framed == Frame(data)
  {
    hide Crc32c.Mask, Crc32c.Extend, U32, Fixed32;
  }

  /** WriteAheadLog::ReplayAll: the payloads handed to the callback, in order. A missing file has none. */
  method ReplayAll(file: Option<Bytes>) returns (records: seq<Bytes>)
    ensures file == None ==> records == []
    ensures file.Some? ==> records == Replay(file.value).0
  {
    hide DecodeFrame, Replay, Crc32c.Value, Crc32c.Unmask, Crc32c.Extend, DecodeFixed32, Fixed32, N32;
    records := [];
    if file == None { return; }
    var f := file.value;
    var pos := 0;
    assert f[0..] == f;
    assert [] + Replay(f).0 == Replay(f).0;
    while true
      invariant 0 <= pos <= |f|
      invariant Replay(f).0 == records + Replay(f[pos..]).0
      decreases |f| - pos
    {
      ReplayUnfold(f[pos..], records);
      if |f| - pos < HEADER {
        ShortLog(f[pos..]);
        break;
      }
      var header := f[pos..pos + 8];
      var stored := Crc32c.Unmask(DecodeFixed32(header));
      var word := DecodeFixed32(header[4..]);
      var length := N32(word);
      HeaderOf(f[pos..]);
      SliceAt(f, pos, 0, 8);
      SliceAt(f, pos, 4, 8);
      assert header[4..] == f[pos + 4..pos + 8];
      if |f| - (pos + 8) < length {
        break;
      }
      var buf := f[pos + 8..pos + 8 + length];
      SliceAt(f, pos, 8, 8 + length);
      var computed := Crc32c.ExtendByTable(0, Fixed32(word) + buf);
      ValueIsExtend(Fixed32(word) + buf);
      if computed != stored {
        break;
      }
      records := records + [buf];
      pos := pos + 8 + length;
    }
  }

  lemma SliceAt(f: Bytes, pos: nat, i: nat, j: nat)
    requires i <= j && pos + j <= |f|
    ensures f[pos..][i..j] == f[pos + i..pos + j] && f[pos..][j..] == f[pos + j..]
  {
  }

  lemma ValueIsExtend(data: Bytes)
    ensures Crc32c.Value(data) == Crc32c.Extend(0, data)
  {
    hide Crc32c.Extend;
  }

  lemma ShortLog(log: Bytes)
    requires |log| < HEADER
    ensures DecodeFrame(log) == None
  {
  }

  lemma FirstFour(p: Bytes, q: Bytes)
    requires |p| >= 4 && |q| >= 4 && p[..4] == q[..4]
    ensures DecodeFixed32(p) == DecodeFixed32(q)
  {
    assert p[..4][0] == q[..4][0] && p[..4][1] == q[..4][1] && p[..4][2] == q[..4][2] && p[..4][3] == q[..4][3];
  }

  lemma HeaderOf(log: Bytes)
    requires |log| >= HEADER
    ensures var h, l := log[..8], log[4..8];
            var stored, word := Crc32c.Unmask(DecodeFixed32(h)), DecodeFixed32(l);
            DecodeFrame(log) ==
            if |log| - HEADER < N32(word) then None
            else if Crc32c.Value(Fixed32(word) + log[8..8 + N32(word)]) != stored then None
            else Some((log[8..8 + N32(word)], log[8 + N32(word)..]))
  {
    hide Crc32c.Unmask, Crc32c.Value, DecodeFixed32, Fixed32, N32;
    FirstFour(log, log[..8]);
    assert log[4..][..4] == log[4..8][..4];
    FirstFour(log[4..], log[4..8]);
  }

  lemma ReplayUnfold(log: Bytes, before: seq<Bytes>)
    ensures var d := DecodeFrame(log);
            before + Replay(log).0 ==
            if d == None then before else (before + [d.value.0]) + Replay(d.value.1).0
  {
    hide DecodeFrame;
    var d := DecodeFrame(log);
    if d.Some? {
      assert Replay(log).0 == [d.value.0] + Replay(d.value.1).0;
      assert before + ([d.value.0] + Replay(d.value.1).0) == (before + [d.value.0]) + Replay(d.value.1).0;
    }
  }
}
