/** Fixed-width and variable-length integers and length-prefixed strings (include/clomdb/coding.h). */
module Coding {
  import opened Bytes

  // ---- Fixed-width little-endian words ----

  function Fixed32(v: bv32): Bytes {
    [Low(v), Low(v >> 8), Low(v >> 16), Low(v >> 24)]
  }

  function DecodeFixed32(p: Bytes): bv32
    requires |p| >= 4
  {
    Pack32(p[0], p[1], p[2], p[3])
  }

  function Fixed64(v: bv64): Bytes {
    Fixed32(Low32(v)) + Fixed32(Low32(v >> 32))
  }

  function DecodeFixed64(p: Bytes): bv64
    requires |p| >= 8
  {
    Pack64(DecodeFixed32(p), DecodeFixed32(p[4..]))
  }

  /** Fixed32 and DecodeFixed32 are inverse bijections between words and four-byte strings. */
  lemma Fixed32RoundTrip(v: bv32, rest: Bytes)
    ensures DecodeFixed32(Fixed32(v) + rest) == v
  {
  }

  lemma Fixed32Onto(p: Bytes)
    requires |p| >= 4
    ensures Fixed32(DecodeFixed32(p)) == p[..4]
  {
    Pack32Bytes(p[0], p[1], p[2], p[3]);
  }

  lemma Fixed64RoundTrip(v: bv64, rest: Bytes)
    ensures DecodeFixed64(Fixed64(v) + rest) == v
  {
    var lo, hi := Low32(v), Low32(v >> 32);
    var p := Fixed64(v) + rest;
    assert p == Fixed32(lo) + (Fixed32(hi) + rest);
    assert p[4..] == Fixed32(hi) + rest;
    Fixed32RoundTrip(lo, Fixed32(hi) + rest);
    Fixed32RoundTrip(hi, rest);
    assert Pack64(lo, hi) == v;
  }

  lemma Fixed64Onto(p: Bytes)
    requires |p| >= 8
    ensures Fixed64(DecodeFixed64(p)) == p[..8]
  {
    hide Fixed32, DecodeFixed32, Pack64, Low32;
    var lo, hi := DecodeFixed32(p), DecodeFixed32(p[4..]);
    Pack64Halves(lo, hi);
    FixedHalves(lo, hi);
    Fixed32Onto(p);
    Fixed32Onto(p[4..]);
    assert p[..8] == p[..4] + p[4..][..4];
  }

  lemma FixedHalves(lo: bv32, hi: bv32)
    ensures Fixed64(Pack64(lo, hi)) == Fixed32(lo) + Fixed32(hi)
  {
    hide Fixed32, Pack64, Low32;
    Pack64Halves(lo, hi);
  }

  /** A size stored as a fixed64 comes back unchanged. */
  lemma Size64RoundTrip(n: nat, rest: Bytes)
    requires n < TWO_64
    ensures |Fixed64(U64(n))| == 8
    ensures N64(DecodeFixed64(Fixed64(U64(n)) + rest)) == n
  {
    Fixed64RoundTrip(U64(n), rest);
    CastValue64(n);
  }

  // ---- Varints ----

  predicate Small(v: bv32) {
    v < 0x80
  }

  function MoreByte(v: bv32): byte {
    Low(v) | 0x80
  }

  predicate More(b: byte) {
    b & 0x80 != 0
  }

  function Septet(b: byte): bv32 {
    (b as bv32) & 0x7F
  }

  function Up7(r: bv32): bv32 {
    r << 7
  }

  function Down7(v: bv32): bv32 {
    v >> 7
  }

  function Shl(x: bv32, s: bv32): bv32
    requires s <= 32
  {
    x << s
  }

  function Or(x: bv32, y: bv32): bv32 {
    x | y
  }

  function Varint32(v: bv32): Bytes
    decreases v
  {
    if Small(v) then [Low(v)] else [MoreByte(v)] + Varint32(Down7(v))
  }

  /** The varint at the front of s, of at most n bytes: its value modulo 2^32 and the bytes after it. */
  function DecodeVarint32(s: Bytes, n: nat): Option<(bv32, Bytes)>
    decreases n
  {
    if n == 0 || s == [] then None
    else if More(s[0]) then
      match DecodeVarint32(s[1..], n - 1)
      case None => None
      case Some((r, rest)) => Some((Or(Septet(s[0]), Up7(r)), rest))
    else
      Some((Septet(s[0]), s[1..]))
  }

  predicate FitsIn(v: bv32, n: nat) {
    if n == 0 then false else if n == 1 then v < 0x80 else if n == 2 then v < 0x4000
    else if n == 3 then v < 0x20_0000 else if n == 4 then v < 0x1000_0000 else true
  }

  lemma VarintBytes(v: bv32)
    ensures Small(v) ==> !More(Low(v)) && Septet(Low(v)) == v
    ensures More(MoreByte(v))
    ensures Or(Septet(MoreByte(v)), Up7(Down7(v))) == v
  {
    hide *;
    MoreByteBits(v);
    if Small(v) { SmallByte(v); }
  }

  lemma MoreByteBits(v: bv32)
    ensures More(MoreByte(v))
    ensures Or(Septet(MoreByte(v)), Up7(Down7(v))) == v
  {
    MoreByteRaw(v);
  }

  lemma MoreByteRaw(v: bv32)
    ensures (((v & 0xFF) as bv8) | 0x80) & 0x80 == 0x80
    ensures ((((v & 0xFF) as bv8) | 0x80) as bv32 & 0x7F) | ((v >> 7) << 7) == v
  {
  }

  lemma SmallByte(v: bv32)
    requires Small(v)
    ensures !More(Low(v)) && Septet(Low(v)) == v
  {
  }

  lemma DownShrinks(v: bv32, n: nat)
    requires FitsIn(v, n) && !Small(v)
    ensures n >= 2 && FitsIn(Down7(v), n - 1)
  {
    assert v < 0x4000 ==> v >> 7 < 0x80;
    assert v < 0x20_0000 ==> v >> 7 < 0x4000;
    assert v < 0x1000_0000 ==> v >> 7 < 0x20_0000;
    assert v >> 7 < 0x1000_0000 || n != 5;
  }

  lemma {:induction false} VarintRoundTripIn(v: bv32, rest: Bytes, n: nat)
    requires FitsIn(v, n) && 1 <= n <= 5
    ensures 1 <= |Varint32(v)| <= n
    ensures DecodeVarint32(Varint32(v) + rest, n) == Some((v, rest))
    decreases n
  {
    hide FitsIn, Small, MoreByte, More, Septet, Up7, Down7, Or, Low;
    VarintBytes(v);
    if !Small(v) { DownShrinks(v, n); }
    var s := Varint32(v) + rest;
    if Small(v) {
      assert s[0] == Low(v) && s[1..] == rest;
    } else {
      assert s[0] == MoreByte(v) && s[1..] == Varint32(Down7(v)) + rest;
      VarintRoundTripIn(Down7(v), rest, n - 1);
    }
  }

  /** A varint takes one to five bytes, and decoding it consumes exactly those bytes whatever follows. */
  lemma VarintRoundTrip(v: bv32, rest: Bytes)
    ensures 1 <= |Varint32(v)| <= 5
    ensures DecodeVarint32(Varint32(v) + rest, 5) == Some((v, rest))
  {
    VarintRoundTripIn(v, rest, 5);
  }

  lemma {:induction false} DecodeVarintShrinks(s: Bytes, n: nat)
    ensures var d := DecodeVarint32(s, n); d.Some? ==> |d.value.1| < |s| && d.value.1 == s[|s| - |d.value.1|..]
    decreases n
  {
    hide More, Septet, Up7, Or;
    if n > 0 && s != [] && More(s[0]) {
      DecodeVarintShrinks(s[1..], n - 1);
    }
  }

  /** Encodings given in section 7.6 of the DWARF version 5 standard. */
  lemma KnownVarints()
    ensures Varint32(2) == [2] && Varint32(127) == [127] && Varint32(128) == [0x80, 1] && Varint32(129) == [0x81, 1]
    ensures Varint32(12857) == [57 + 0x80, 100]
  {
  }

  /** A varint cut short is refused. */
  lemma {:induction false} TruncatedVarint(v: bv32, k: nat, n: nat)
    requires k < |Varint32(v)|
    ensures DecodeVarint32(Varint32(v)[..k], n) == None
    decreases v
  {
    hide Septet, Up7, Or, MoreByte;
    if k > 0 && n > 0 {
      VarintBytes(v);
      DownLess(v);
      TruncatedVarint(Down7(v), k - 1, n - 1);
      assert Varint32(v)[..k][1..] == Varint32(Down7(v))[..k - 1];
    }
  }

  lemma DownLess(v: bv32)
    requires !Small(v)
    ensures Down7(v) < v
  {
  }


  method PutVarint32(dst: Bytes, v0: bv32) returns (out: Bytes)
    ensures out == dst + Varint32(v0)
  {
    hide *;
    var buf := new byte[5];
    var v, n := v0, 0;
    VarintRoundTrip(v0, []);
    while !Small(v)
      invariant 0 <= n && n + |Varint32(v)| <= 5
      invariant buf[..n] + Varint32(v) == Varint32(v0)
      decreases |Varint32(v)|
    {
      VarintUnfold(v);
      VarintRoundTrip(Down7(v), []);
      ghost var before := buf[..n];
      buf[n] := MoreByte(v);
      assert buf[..n + 1] == before + [MoreByte(v)];
      v, n := Down7(v), n + 1;
    }
    VarintUnfold(v);
    ghost var before := buf[..n];
    buf[n] := Low(v);
    n := n + 1;
    assert buf[..n] == before + [Low(v)];
    out := dst + buf[..n];
  }

  lemma VarintUnfold(v: bv32)
    ensures Varint32(v) == if Small(v) then [Low(v)] else [MoreByte(v)] + Varint32(Down7(v))
  {
  }

  /** `result` with the decoded bits of the rest put in above the first `shift` bits. */
  ghost function Above(result: bv32, shift: bv32, d: Option<(bv32, Bytes)>): Option<(bv32, Bytes)>
    requires shift <= 28
  {
    match d
    case None => None
    case Some((r, rest)) => Some((Or(result, Shl(r, shift)), rest))
  }

  ghost predicate ShiftOf(shift: bv32, n: nat) {
    shift == (if n == 5 then 0 else if n == 4 then 7 else if n == 3 then 14 else if n == 2 then 21 else 28)
    && 1 <= n <= 5
  }

  lemma ShiftStep(shift: bv32, n: nat)
    requires ShiftOf(shift, n)
    ensures shift <= 28 && 1 <= n <= 5
    ensures n == 1 ==> shift + 7 > 28
    ensures n >= 2 ==> shift <= 21 && shift + 7 <= 28 && ShiftOf(shift + 7, n - 1)
  {
  }

  lemma OrShl0(x: bv32, y: bv32)
    ensures Shl(Or(x, y), 0) == Or(Shl(x, 0), Shl(y, 0))
  {
  }

  lemma OrShl7(x: bv32, y: bv32)
    ensures Shl(Or(x, y), 7) == Or(Shl(x, 7), Shl(y, 7))
  {
  }

  lemma OrShl14(x: bv32, y: bv32)
    ensures Shl(Or(x, y), 14) == Or(Shl(x, 14), Shl(y, 14))
  {
  }

  lemma OrShl21(x: bv32, y: bv32)
    ensures Shl(Or(x, y), 21) == Or(Shl(x, 21), Shl(y, 21))
  {
  }

  lemma Shl0Up7(r: bv32)
    ensures Shl(Up7(r), 0) == Shl(r, 7)
  {
  }

  lemma Shl7Up7(r: bv32)
    ensures Shl(Up7(r), 7) == Shl(r, 14)
  {
  }

  lemma Shl14Up7(r: bv32)
    ensures Shl(Up7(r), 14) == Shl(r, 21)
  {
  }

  lemma Shl21Up7(r: bv32)
    ensures Shl(Up7(r), 21) == Shl(r, 28)
  {
  }

  lemma OrAssoc(x: bv32, y: bv32, z: bv32)
    ensures Or(x, Or(y, z)) == Or(Or(x, y), z)
  {
  }

  lemma AccumulateBits(result: bv32, shift: bv32, x: bv32, r: bv32)
    requires shift == 0 || shift == 7 || shift == 14 || shift == 21
    ensures Or(result, Shl(Or(x, Up7(r)), shift)) == Or(Or(result, Shl(x, shift)), Shl(r, shift + 7))
  {
    hide *;
    OrShl0(x, Up7(r));
    OrShl7(x, Up7(r));
    OrShl14(x, Up7(r));
    OrShl21(x, Up7(r));
    Shl0Up7(r);
    Shl7Up7(r);
    Shl14Up7(r);
    Shl21Up7(r);
    OrAssoc(result, Shl(x, shift), Shl(Up7(r), shift));
  }

  lemma LastByte(b: byte)
    requires !More(b)
    ensures Septet(b) == b as bv32
  {
  }

  /** The state of GetVarint32Ptr's loop at input t: what is left to decode completes to `spec`. */
  ghost predicate LoopInv(spec: Option<(bv32, Bytes)>, t: Bytes, result: bv32, shift: bv32) {
    if shift <= 28 then exists n: nat :: ShiftOf(shift, n) && spec == Above(result, shift, DecodeVarint32(t, n))
    else spec == None
  }

  lemma AboveNothing(d: Option<(bv32, Bytes)>)
    ensures ShiftOf(0, 5) && Above(0, 0, d) == d
  {
    if d.Some? { assert 0 | (d.value.0 << 0) == d.value.0; }
  }

  lemma LoopStart(t: Bytes)
    ensures LoopInv(DecodeVarint32(t, 5), t, 0, 0)
  {
    hide ShiftOf, Above, DecodeVarint32;
    AboveNothing(DecodeVarint32(t, 5));
  }

  lemma LoopEnd(spec: Option<(bv32, Bytes)>, result: bv32, shift: bv32)
    requires LoopInv(spec, [], result, shift)
    ensures spec == None
  {
  }

  lemma LoopStep(spec: Option<(bv32, Bytes)>, t: Bytes, result: bv32, shift: bv32)
    requires LoopInv(spec, t, result, shift) && t != [] && shift <= 28
    ensures More(t[0]) ==> LoopInv(spec, t[1..], Or(result, Shl(Septet(t[0]), shift)), shift + 7)
    ensures !More(t[0]) ==> spec == Some((Or(result, Shl(t[0] as bv32, shift)), t[1..]))
  {
    hide More, Septet, Or, Shl, ShiftOf, Above, DecodeVarint32;
    var n: nat :| ShiftOf(shift, n) && spec == Above(result, shift, DecodeVarint32(t, n));
    ShiftStep(shift, n);
    StepAt(t, result, shift, n);
  }

  lemma StepAt(t: Bytes, result: bv32, shift: bv32, n: nat)
    requires t != [] && ShiftOf(shift, n) && shift <= 28
    ensures More(t[0]) && n == 1 ==> Above(result, shift, DecodeVarint32(t, n)) == None
    ensures More(t[0]) && n > 1 ==> shift <= 21
    ensures More(t[0]) && n > 1 ==>
              Above(result, shift, DecodeVarint32(t, n)) ==
              Above(Or(result, Shl(Septet(t[0]), shift)), shift + 7, DecodeVarint32(t[1..], n - 1))
    ensures !More(t[0]) ==>
              Above(result, shift, DecodeVarint32(t, n)) ==
              Some((Or(result, Shl(t[0] as bv32, shift)), t[1..]))
  {
    hide More, Septet, Or, Up7, Shl, ShiftOf;
    ShiftStep(shift, n);
    if More(t[0]) {
      if n > 1 {
        var d := DecodeVarint32(t[1..], n - 1);
        if d.Some? {
          ShiftCases(shift, n);
          AccumulateBits(result, shift, Septet(t[0]), d.value.0);
        }
      } else {
        assert DecodeVarint32(t[1..], 0) == None;
      }
    } else {
      LastByte(t[0]);
      assert DecodeVarint32(t, n) == Some((Septet(t[0]), t[1..]));
    }
  }

  lemma ShiftCases(shift: bv32, n: nat)
    requires ShiftOf(shift, n) && n > 1
    ensures shift == 0 || shift == 7 || shift == 14 || shift == 21
  {
  }

  /** A varint that goes on for all its n bytes is refused, whatever follows. */
  lemma {:induction false} NeverEnds(s: Bytes, n: nat)
    requires |s| >= n && forall i :: 0 <= i < n ==> s[i] >= 0x80
    ensures DecodeVarint32(s, n) == None
    decreases n
  {
    hide Septet, Up7, Or;
    if n > 0 {
      HighBit(s[0]);
      NeverEnds(s[1..], n - 1);
    }
  }

  lemma HighBit(b: byte)
    ensures b >= 0x80 <==> More(b)
  {
  }

  /** GetVarint32Ptr(p, limit, &value): the value and the position after it, or None where it returns nullptr. */
  method GetVarint32Ptr(s: Bytes, p0: nat, limit: nat) returns (r: Option<(bv32, nat)>)
    requires p0 <= limit <= |s|
    ensures match DecodeVarint32(s[p0..limit], 5)
            case None => r == None
            case Some((v, rest)) => r.Some? && r.value.0 == v && p0 < r.value.1 <= limit && rest == s[r.value.1..limit]
    ensures limit - p0 >= 5 && (forall i :: p0 <= i < p0 + 5 ==> s[i] >= 0x80) ==> r == None
  {
    hide *;
    var p, shift: bv32, result: bv32 := p0, 0, 0;
    ghost var spec := DecodeVarint32(s[p0..limit], 5);
    LoopStart(s[p0..limit]);
    if limit - p0 >= 5 && forall i :: p0 <= i < p0 + 5 ==> s[i] >= 0x80 {
      NeverEnds(s[p0..limit], 5);
    }
    while shift <= 28 && p < limit
      invariant p0 <= p <= limit
      invariant LoopInv(spec, s[p..limit], result, shift)
      decreases limit - p
    {
      var b := s[p];
      LoopStep(spec, s[p..limit], result, shift);
      assert s[p..limit][1..] == s[p + 1..limit];
      p := p + 1;
      if More(b) {
        result := Or(result, Shl(Septet(b), shift));
      } else {
        result := Or(result, Shl(b as bv32, shift));
        return Some((result, p));
      }
      shift := shift + 7;
    }
    if shift <= 28 {
      assert s[p..limit] == [];
      LoopEnd(spec, result, shift);
    } else {
      LoopPast(spec, s[p..limit], result, shift);
    }
    return None;
  }

  lemma LoopPast(spec: Option<(bv32, Bytes)>, t: Bytes, result: bv32, shift: bv32)
    requires LoopInv(spec, t, result, shift) && shift > 28
    ensures spec == None
  {
  }

  // ---- Length-prefixed strings ----

  function LengthPrefixed(value: Bytes): Bytes {
    Varint32(U32(|value|)) + value
  }

  /** The prefixed string at the front of the input and the input after it. */
  function DecodeLengthPrefixed(input: Bytes): Option<(Bytes, Bytes)> {
    match DecodeVarint32(input, 5)
    case None => None
    case Some((len, rest)) =>
      if N32(len) > |rest| then None else Some((rest[..N32(len)], rest[N32(len)..]))
  }

  /** A length-prefixed string is read back exactly when its length fits the 32-bit prefix. */
  lemma LengthPrefixedRoundTrip(value: Bytes, rest: Bytes)
    ensures DecodeLengthPrefixed(LengthPrefixed(value) + rest) == Some((value, rest)) <==> |value| < TWO_32
  {
    hide Varint32, DecodeVarint32, U32, N32;
    var len := U32(|value|);
    assert LengthPrefixed(value) + rest == Varint32(len) + (value + rest);
    VarintRoundTrip(len, value + rest);
    CastValue32(|value|);
    if |value| < TWO_32 {
      assert (value + rest)[..|value|] == value && (value + rest)[|value|..] == rest;
    }
  }

  /** A length-prefixed string cut short anywhere is refused. */
  lemma TruncatedString(value: Bytes, k: nat)
    requires |value| < TWO_32 && k < |LengthPrefixed(value)|
    ensures DecodeLengthPrefixed(LengthPrefixed(value)[..k]) == None
  {
    hide Varint32, DecodeVarint32, U32, N32;
    var len := U32(|value|);
    var prefix := Varint32(len);
    CastValue32(|value|);
    if k < |prefix| {
      TruncatedVarint(len, k, 5);
      assert LengthPrefixed(value)[..k] == prefix[..k];
    } else {
      var part := value[..k - |prefix|];
      VarintRoundTrip(len, part);
      assert LengthPrefixed(value)[..k] == prefix + part;
    }
  }

  lemma DecodeLengthPrefixedShrinks(input: Bytes)
    ensures var d := DecodeLengthPrefixed(input); d.Some? ==> |d.value.1| < |input|
  {
    DecodeVarintShrinks(input, 5);
  }

  method PutLengthPrefixedSlice(dst: Bytes, value: Bytes) returns (out: Bytes)
    ensures out == dst + LengthPrefixed(value)
  {
    out := PutVarint32(dst, U32(|value|));
    out := out + value;
  }

  /** GetLengthPrefixedSlice: None where it returns false, otherwise the slice and the advanced input. */
  method GetLengthPrefixedSlice(input: Bytes) returns (r: Option<(Bytes, Bytes)>)
    ensures r == DecodeLengthPrefixed(input)
  {
    hide DecodeVarint32, N32;
    assert input[0..|input|] == input;
    var v := GetVarint32Ptr(input, 0, |input|);
    if v == None { return None; }
    var (len, p) := v.value;
    assert input[p..|input|] == input[p..];
    if p + N32(len) > |input| { return None; }
    assert input[p..][N32(len)..] == input[p + N32(len)..];
    assert input[p..][..N32(len)] == input[p..p + N32(len)];
    r := Some((input[p..p + N32(len)], input[p + N32(len)..]));
  }
}
