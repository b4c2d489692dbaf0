/** Byte strings, their unsigned lexicographic order, and the casts between sizes and machine words. */
module Bytes {
  type byte = bv8
  type Bytes = seq<byte>

  datatype Option<+T> = None | Some(value: T)

  const TWO_32: nat := 0x1_0000_0000
  const TWO_64: nat := 0x1_0000_0000_0000_0000

  // ---- Casts ----
  // Each cast goes through the four (or eight) little-endian bytes of the word.

  function CountTo(n: nat): byte {
    if n == 0 then 0 else CountTo(n - 1) + 1
  }

  /** The byte with the value of n modulo 256. */
  function ByteOf(n: nat): byte {
    CountTo(n % 256)
  }

  function IntOf(b: byte): nat {
    b as int
  }

  function Low(v: bv32): byte {
    (v & 0xFF) as bv8
  }

  function Pack32(b0: byte, b1: byte, b2: byte, b3: byte): bv32 {
    (b0 as bv32) | (b1 as bv32 << 8) | (b2 as bv32 << 16) | (b3 as bv32 << 24)
  }

  function Word32(r: nat): bv32 {
    Pack32(ByteOf(r), ByteOf(r / 256), ByteOf(r / 256 / 256), ByteOf(r / 256 / 256 / 256))
  }

  /** static_cast<uint32_t>(n): the low 32 bits of n. */
  function U32(n: nat): bv32 {
    Word32(n % TWO_32)
  }

  /** The size_t with the value of v. */
  function N32(v: bv32): nat {
    IntOf(Low(v)) + 256 * (IntOf(Low(v >> 8)) + 256 * (IntOf(Low(v >> 16)) + 256 * IntOf(Low(v >> 24))))
  }

  function Pack64(lo: bv32, hi: bv32): bv64 {
    (lo as bv64) | (hi as bv64 << 32)
  }

  function Low32(v: bv64): bv32 {
    (v & 0xFFFF_FFFF) as bv32
  }

  /** static_cast<uint64_t>(n): the low 64 bits of n. */
  function U64(n: nat): bv64 {
    Pack64(U32(n), U32(n / TWO_32))
  }

  function N64(v: bv64): nat {
    N32(Low32(v)) + TWO_32 * N32(Low32(v >> 32))
  }

  lemma NextByte(b: byte)
    requires IntOf(b) < 255
    ensures IntOf(b + 1) == IntOf(b) + 1
  {
  }

  lemma {:induction false} CountToValue(n: nat)
    requires n < 256
    ensures IntOf(CountTo(n)) == n
  {
    hide IntOf;
    if n == 0 {
      Zero();
    } else {
      CountToValue(n - 1);
      NextByte(CountTo(n - 1));
    }
  }

  lemma Zero()
    ensures IntOf(0) == 0
  {
  }

  lemma ByteOfValue(n: nat)
    ensures IntOf(ByteOf(n)) == n % 256
  {
    hide IntOf, CountTo;
    CountToValue(n % 256);
  }

  lemma Pack32Bytes(b0: byte, b1: byte, b2: byte, b3: byte)
    ensures var v := Pack32(b0, b1, b2, b3);
            Low(v) == b0 && Low(v >> 8) == b1 && Low(v >> 16) == b2 && Low(v >> 24) == b3
  {
  }

  lemma PackValue(b0: byte, b1: byte, b2: byte, b3: byte)
    ensures N32(Pack32(b0, b1, b2, b3)) == IntOf(b0) + 256 * (IntOf(b1) + 256 * (IntOf(b2) + 256 * IntOf(b3)))
  {
    Pack32Bytes(b0, b1, b2, b3);
  }

  lemma Digits(r: nat)
    requires r < TWO_32
    ensures r == r % 256 + 256 * (r / 256 % 256 + 256 * (r / 256 / 256 % 256 + 256 * (r / 256 / 256 / 256 % 256)))
  {
  }

  lemma Word32Value(r: nat)
    requires r < TWO_32
    ensures N32(Word32(r)) == r
  {
    hide ByteOf, IntOf, N32, Pack32;
    var q1 := r / 256;
    var q2 := q1 / 256;
    var q3 := q2 / 256;
    var b0, b1, b2, b3 := ByteOf(r), ByteOf(q1), ByteOf(q2), ByteOf(q3);
    ByteOfValue(r);
    ByteOfValue(q1);
    ByteOfValue(q2);
    ByteOfValue(q3);
    PackValue(b0, b1, b2, b3);
    Digits(r);
  }

  /** The 32-bit cast keeps exactly the value modulo 2^32. */
  lemma CastValue32(n: nat)
    ensures N32(U32(n)) == n % TWO_32
  {
    Word32Value(n % TWO_32);
  }

  lemma Pack64Halves(lo: bv32, hi: bv32)
    ensures Low32(Pack64(lo, hi)) == lo && Low32(Pack64(lo, hi) >> 32) == hi
  {
  }

  lemma CastValue64(n: nat)
    requires n < TWO_64
    ensures N64(U64(n)) == n
  {
    hide U32, N32, Pack64, Low32;
    var q := n / TWO_32;
    CastValue32(n);
    CastValue32(q);
    assert q % TWO_32 == q && n == n % TWO_32 + TWO_32 * q;
    Pack64Halves(U32(n), U32(q));
  }

  lemma ByteRange(b: byte)
    ensures 0 <= IntOf(b) < 256
  {
  }

  lemma SameByte(a: byte, b: byte)
    requires IntOf(a) == IntOf(b)
    ensures a == b
  {
  }

  lemma ByteOfDigit(b: byte, q: nat)
    ensures ByteOf(IntOf(b) + 256 * q) == b && (IntOf(b) + 256 * q) / 256 == q
  {
    hide ByteOf, IntOf;
    var x := IntOf(b);
    ByteRange(b);
    assert (x + 256 * q) % 256 == x;
    ByteOfValue(x + 256 * q);
    SameByte(ByteOf(x + 256 * q), b);
  }

  lemma WordByQuotients(r: nat, q1: nat, q2: nat, q3: nat)
    requires q1 == r / 256 && q2 == q1 / 256 && q3 == q2 / 256
    ensures Word32(r) == Pack32(ByteOf(r), ByteOf(q1), ByteOf(q2), ByteOf(q3))
  {
    hide ByteOf, Pack32;
  }

  lemma WordOfDigits(b0: byte, b1: byte, b2: byte, b3: byte)
    ensures Word32(IntOf(b0) + 256 * (IntOf(b1) + 256 * (IntOf(b2) + 256 * IntOf(b3)))) == Pack32(b0, b1, b2, b3)
  {
    hide *;
    var n3 := IntOf(b3) + 256 * 0;
    var n2 := IntOf(b2) + 256 * n3;
    var n1 := IntOf(b1) + 256 * n2;
    var n0 := IntOf(b0) + 256 * n1;
    ByteOfDigit(b3, 0);
    ByteOfDigit(b2, n3);
    ByteOfDigit(b1, n2);
    ByteOfDigit(b0, n1);
    WordByQuotients(n0, n1, n2, n3);
  }

  /** Every word is the cast of its value. */
  lemma CastInverse(v: bv32)
    ensures U32(N32(v)) == v
  {
    hide Word32, Pack32, Low, N32;
    var n := N32(v);
    Range32(v);
    assert n % TWO_32 == n;
    PackOfLow(v);
    DigitsOf(v);
  }

  lemma DigitsOf(v: bv32)
    ensures Word32(N32(v)) == Pack32(Low(v), Low(v >> 8), Low(v >> 16), Low(v >> 24))
  {
    hide IntOf, Low, Word32, Pack32;
    WordOfDigits(Low(v), Low(v >> 8), Low(v >> 16), Low(v >> 24));
  }

  lemma PackOfLow(v: bv32)
    ensures Pack32(Low(v), Low(v >> 8), Low(v >> 16), Low(v >> 24)) == v
  {
  }

  lemma Range32(v: bv32)
    ensures N32(v) < TWO_32
  {
  }

  function Rest(v: bv32): bv32 {
    v >> 8
  }

  lemma Shifts(v: bv32)
    ensures v >> 8 == Rest(v) && v >> 16 == Rest(Rest(v)) && v >> 24 == Rest(Rest(Rest(v)))
  {
  }

  lemma Carry(v: bv32)
    ensures Low(v) != 255 ==> Low(v + 1) == Low(v) + 1 && Rest(v + 1) == Rest(v)
    ensures Low(v) == 255 && v != 0xFFFF_FFFF ==> Low(v + 1) == 0 && Rest(v + 1) == Rest(v) + 1
    ensures Rest(v) != 0xFFFF_FFFF
  {
  }

  lemma AllOnes(v: bv32)
    requires Low(v) == 255 && Low(Rest(v)) == 255 && Low(Rest(Rest(v))) == 255 && Low(Rest(Rest(Rest(v)))) == 255
    ensures v == 0xFFFF_FFFF
  {
  }

  lemma ByteSuccessor(b: byte)
    requires b != 255
    ensures IntOf(b + 1) == IntOf(b) + 1
  {
    hide IntOf;
    ByteRange(b);
    LastByte();
    if IntOf(b) == 255 { SameByte(b, 255); } else { NextByte(b); }
  }

  lemma LastByte()
    ensures IntOf(255) == 255
  {
  }

  /** The value of the lowest n bytes of a word. */
  function ValueIn(v: bv32, n: nat): nat {
    if n == 0 then 0 else IntOf(Low(v)) + 256 * ValueIn(Rest(v), n - 1)
  }

  /** One of the lowest n bytes is not full. */
  predicate RoomIn(v: bv32, n: nat) {
    n > 0 && (Low(v) != 255 || RoomIn(Rest(v), n - 1))
  }

  lemma {:induction false} ValueSuccessor(v: bv32, n: nat)
    requires RoomIn(v, n) && v != 0xFFFF_FFFF
    ensures ValueIn(v + 1, n) == ValueIn(v, n) + 1
    decreases n
  {
    hide IntOf, Low, Rest;
    Carry(v);
    if Low(v) != 255 {
      ByteSuccessor(Low(v));
    } else {
      ValueSuccessor(Rest(v), n - 1);
      LastByte();
      Zero();
    }
  }

  lemma WordIsBytes(v: bv32)
    ensures N32(v) == ValueIn(v, 4)
  {
    hide IntOf, Low, Rest;
    Shifts(v);
    assert ValueIn(Rest(Rest(v)), 2) == IntOf(Low(Rest(Rest(v)))) + 256 * ValueIn(Rest(Rest(Rest(v))), 1);
    assert ValueIn(Rest(v), 3) == IntOf(Low(Rest(v))) + 256 * ValueIn(Rest(Rest(v)), 2);
  }

  lemma WordHasRoom(v: bv32)
    requires v != 0xFFFF_FFFF
    ensures RoomIn(v, 4)
  {
    hide Low, Rest;
    var v1, v2, v3 := Rest(v), Rest(Rest(v)), Rest(Rest(Rest(v)));
    assert RoomIn(v2, 2) == (Low(v2) != 255 || RoomIn(v3, 1));
    assert RoomIn(v1, 3) == (Low(v1) != 255 || RoomIn(v2, 2));
    if Low(v) == 255 && Low(v1) == 255 && Low(v2) == 255 && Low(v3) == 255 { AllOnes(v); }
  }

  /** Zero has the value 0 and adding one adds one: N32 is the value of an unsigned word. */
  lemma WordSuccessor(v: bv32)
    ensures N32(0) == 0
    ensures v != 0xFFFF_FFFF ==> N32(v + 1) == N32(v) + 1
  {
    hide N32;
    ZeroWord();
    if v != 0xFFFF_FFFF {
      WordIsBytes(v);
      WordIsBytes(v + 1);
      WordHasRoom(v);
      ValueSuccessor(v, 4);
    }
  }

  lemma ZeroWord()
    ensures N32(0) == 0
  {
    Zero();
  }

  // ---- Unsigned-byte lexicographic order ----

  predicate Less(a: Bytes, b: Bytes) {
    if a == [] then b != []
    else if b == [] then false
    else if a[0] != b[0] then a[0] < b[0]
    else Less(a[1..], b[1..])
  }

  predicate LessEq(a: Bytes, b: Bytes) {
    a == b || Less(a, b)
  }

  lemma {:induction false} LessIrreflexive(a: Bytes)
    ensures !Less(a, a)
  {
    if a != [] { LessIrreflexive(a[1..]); }
  }

  lemma {:induction false} LessTransitive(a: Bytes, b: Bytes, c: Bytes)
    requires Less(a, b) && Less(b, c)
    ensures Less(a, c)
  {
    if a != [] && a[0] == b[0] == c[0] {
      LessTransitive(a[1..], b[1..], c[1..]);
    }
  }

  /** Any two different byte strings are ordered one way. */
  lemma {:induction false} LessTotal(a: Bytes, b: Bytes)
    ensures a == b || Less(a, b) || Less(b, a)
  {
    if a != [] && b != [] && a[0] == b[0] {
      LessTotal(a[1..], b[1..]);
      if a[1..] == b[1..] {
        assert a == [a[0]] + a[1..] && b == [b[0]] + b[1..];
      }
    }
  }

  /** Less is a strict total order: exactly one of <, ==, > holds. */
  lemma Trichotomy(a: Bytes, b: Bytes)
    ensures a == b <==> !Less(a, b) && !Less(b, a)
    ensures !(Less(a, b) && Less(b, a))
  {
    LessTotal(a, b);
    LessIrreflexive(a);
    if Less(a, b) && Less(b, a) { LessTransitive(a, b, a); }
  }

  lemma {:induction false} LessAfterPrefix(p: Bytes, a: Bytes, b: Bytes)
    ensures Less(p + a, p + b) == Less(a, b)
  {
    if p == [] {
      assert p + a == a && p + b == b;
    } else {
      assert (p + a)[1..] == p[1..] + a && (p + b)[1..] == p[1..] + b;
      LessAfterPrefix(p[1..], a, b);
    }
  }

  lemma ByteOrder(a: byte, b: byte)
    ensures a < b <==> IntOf(a) < IntOf(b)
  {
  }

  /** a and b agree before position i, where a has ended or has the byte of smaller value. */
  ghost predicate SmallerAt(a: Bytes, b: Bytes, i: nat) {
    i <= |a| && i < |b| && a[..i] == b[..i] && (i == |a| || IntOf(a[i]) < IntOf(b[i]))
  }

  lemma SameStart(a: Bytes, b: Bytes, i: nat)
    requires SmallerAt(a, b, i) && i > 0
    ensures a[0] == b[0]
  {
    assert a[..i][0] == b[..i][0];
  }

  /** The order is that of the first position where the strings differ, by unsigned value, a prefix coming first. */
  lemma {:induction false} LessIffSmallerSomewhere(a: Bytes, b: Bytes)
    ensures Less(a, b) <==> exists i: nat :: SmallerAt(a, b, i)
  {
    hide IntOf;
    if a == [] || b == [] {
      if b != [] { assert SmallerAt(a, b, 0); }
    } else if a[0] != b[0] {
      ByteOrder(a[0], b[0]);
      if a[0] < b[0] { assert SmallerAt(a, b, 0); }
      forall i: nat | SmallerAt(a, b, i)
        ensures i == 0
      {
        if i > 0 { SameStart(a, b, i); }
      }
    } else {
      LessIffSmallerSomewhere(a[1..], b[1..]);
      forall i: nat | SmallerAt(a[1..], b[1..], i)
        ensures SmallerAt(a, b, i + 1)
      {
        assert a[..i + 1] == [a[0]] + a[1..][..i] && b[..i + 1] == [b[0]] + b[1..][..i];
      }
      forall i: nat | SmallerAt(a, b, i)
        ensures i > 0 && SmallerAt(a[1..], b[1..], i - 1)
      {
        ByteOrder(a[0], b[0]);
        assert a[1..][..i - 1] == a[..i][1..] && b[1..][..i - 1] == b[..i][1..];
      }
    }
  }

  /** Slice::compare: memcmp over the common length, then the sizes. */
  method Compare(a: Bytes, b: Bytes) returns (r: int)
    ensures r < 0 <==> Less(a, b)
    ensures r == 0 <==> a == b
    ensures r > 0 <==> Less(b, a)
    ensures r < 0 <==> exists i: nat :: SmallerAt(a, b, i)
  {
    var n := if |a| < |b| then |a| else |b|;
    var i := 0;
    while i < n && a[i] == b[i]
      invariant 0 <= i <= n
      invariant a[..i] == b[..i]
    {
      i := i + 1;
    }
    assert a == a[..i] + a[i..] && b == b[..i] + b[i..];
    LessAfterPrefix(a[..i], a[i..], b[i..]);
    LessAfterPrefix(a[..i], b[i..], a[i..]);
    Trichotomy(a, b);
    LessIffSmallerSomewhere(a, b);
    if i < n {
      r := if a[i] < b[i] then -1 else 1;
    } else {
      r := if |a| < |b| then -1 else if |a| > |b| then 1 else 0;
    }
  }

  // ---- Sequences of byte strings ----

  ghost predicate StrictlySorted(ks: seq<Bytes>) {
    forall i, j :: 0 <= i < j < |ks| ==> Less(ks[i], ks[j])
  }

  lemma SortedDistinct(ks: seq<Bytes>, i: int, j: int)
    requires StrictlySorted(ks)
    requires 0 <= i < |ks| && 0 <= j < |ks| && ks[i] == ks[j]
    ensures i == j
  {
    LessIrreflexive(ks[i]);
  }
}
