/** The per-table Bloom filter (include/clomdb/bloom.h). */
module Bloom {
  import opened Bytes

  // ---- The hash ----

  const SEED: bv32 := 0xbc9f1d34
  const MULT: bv32 := 0xc6a4a793

  function Times(h: bv32): bv32 {
    h * MULT
  }

  function Plus(h: bv32, w: bv32): bv32 {
    h + w
  }

  function Fold16(h: bv32): bv32 {
    h ^ (h >> 16)
  }

  function Fold24(h: bv32): bv32 {
    h ^ (h >> 24)
  }

  function Mix(h: bv32, w: bv32): bv32 {
    Fold16(Times(Plus(h, w)))
  }

  function Second(b: byte): bv32 {
    (b as bv32) << 8
  }

  function Third(b: byte): bv32 {
    (b as bv32) << 16
  }

  /** The one to three bytes left after the last whole word, the highest added first. */
  function WithTail(h: bv32, tail: Bytes): bv32
    requires 1 <= |tail| <= 3
  {
    if |tail| == 3 then Plus(Plus(Plus(h, Third(tail[2])), Second(tail[1])), tail[0] as bv32)
    else if |tail| == 2 then Plus(Plus(h, Second(tail[1])), tail[0] as bv32)
    else Plus(h, tail[0] as bv32)
  }

  function Finish(h: bv32): bv32 {
    Fold24(Times(h))
  }

  function HashFrom(h: bv32, data: Bytes): bv32
    decreases |data|
  {
    if |data| >= 4 then HashFrom(Mix(h, Pack32(data[0], data[1], data[2], data[3])), data[4..])
    else if data == [] then h
    else Finish(WithTail(h, data))
  }

  function Start(size: nat): bv32 {
    SEED ^ Times(U32(size))
  }

  function Hash(key: Bytes): bv32 {
    HashFrom(Start(|key|), key)
  }

  lemma KnownStarts()
    ensures Start(0) == 0xbc9f1d34 && Start(1) == 0x7a3bbaa7 && Start(2) == 0x31d65212 && Start(3) == 0xef72eb8d &&
            Start(4) == 0xa60d8378
  {
    hide U32, Times;
    SmallWords();
    SmallProducts();
  }

  lemma SmallProducts()
    ensures Times(0) == 0 && Times(1) == 0xc6a4a793 && Times(2) == 0x8d494f26 && Times(3) == 0x53edf6b9 &&
            Times(4) == 0x1a929e4c
  {
  }

  lemma SmallWords()
    ensures U32(0) == 0 && U32(1) == 1 && U32(2) == 2 && U32(3) == 3 && U32(4) == 4
  {
    assert CountTo(4) == CountTo(3) + 1 && CountTo(2) == CountTo(1) + 1;
    assert ByteOf(0) == 0 && ByteOf(1) == 1 && ByteOf(2) == 2 && ByteOf(3) == 3 && ByteOf(4) == 4;
  }

  lemma HashOne()
    ensures WithTail(0x7a3bbaa7, [0x62]) == 0x7a3bbb09 && Times(0x7a3bbb09) == 0xef13452b &&
            Fold24(0xef13452b) == 0xef1345c4
  {
  }

  lemma HashTwo()
    ensures WithTail(0x31d65212, [0xc3, 0x97]) == 0x31d6e9d5 && Times(0x31d6e9d5) == 0x5b66384f &&
            Fold24(0x5b66384f) == 0x5b663814
  {
  }

  lemma HashThree()
    ensures WithTail(0xef72eb8d, [0xe2, 0x99, 0xa5]) == 0xf018856f && Times(0xf018856f) == 0x323c07bd &&
            Fold24(0x323c07bd) == 0x323c078f
  {
  }

  lemma HashFour()
    ensures Plus(0xa60d8378, Pack32(0xe1, 0x80, 0xb9, 0x32)) == 0xd8c70459 && Times(0xd8c70459) == 0xed218e1b &&
            Fold16(0xed218e1b) == 0xed21633a
  {
  }

  /** Known values of the hash: of no byte, of a tail of each length and of one word. */
  lemma KnownHashes()
    ensures Hash([]) == 0xbc9f1d34 && Hash([0x62]) == 0xef1345c4 && Hash([0xc3, 0x97]) == 0x5b663814
    ensures Hash([0xe2, 0x99, 0xa5]) == 0x323c078f && Hash([0xe1, 0x80, 0xb9, 0x32]) == 0xed21633a
  {
    hide Start, Plus, Times, Fold16, Fold24, WithTail, Pack32;
    KnownStarts();
    HashOne();
    HashTwo();
    HashThree();
    HashFour();
    assert [0xe1, 0x80, 0xb9, 0x32][4..] == [];
  }

  method BloomHash(key: Bytes) returns (h: bv32)
    ensures h == Hash(key)
  {
    hide Plus, Times, Fold16, Fold24, Start, Pack32, Second, Third;
    h := Start(|key|);
    var pos, n := 0, |key|;
    assert key[0..] == key;
    while n >= 4
      invariant 0 <= pos && 0 <= n && pos + n == |key|
      invariant HashFrom(h, key[pos..]) == Hash(key)
    {
      assert key[pos..][4..] == key[pos + 4..];
      h := Plus(h, Pack32(key[pos], key[pos + 1], key[pos + 2], key[pos + 3]));
      h := Times(h);
      h := Fold16(h);
      pos, n := pos + 4, n - 4;
    }
    if n > 0 {
      if n == 3 { h := Plus(h, Third(key[pos + 2])); }
      if n >= 2 { h := Plus(h, Second(key[pos + 1])); }
      h := Plus(h, key[pos] as bv32);
      h := Times(h);
      h := Fold24(h);
    }
  }

  // ---- Bits and probes ----

  function BitMask(i: nat): byte {
    if i == 0 then 1 else if i == 1 then 2 else if i == 2 then 4 else if i == 3 then 8
    else if i == 4 then 16 else if i == 5 then 32 else if i == 6 then 64 else 128
  }

  function With(b: byte, mask: byte): byte {
    b | mask
  }

  predicate Has(b: byte, mask: byte) {
    b & mask != 0
  }

  function SetBit(f: Bytes, pos: nat): Bytes
    requires pos / 8 < |f|
  {
    f[pos / 8 := With(f[pos / 8], BitMask(pos % 8))]
  }

  predicate TestBit(f: Bytes, pos: nat)
    requires pos / 8 < |f|
  {
    Has(f[pos / 8], BitMask(pos % 8))
  }

  function Delta(h: bv32): bv32 {
    (h >> 17) | (h << 15)
  }

  /** The bits of a filter whose last byte holds the probe count. */
  function Bits(f: Bytes): int {
    8 * (|f| - 1)
  }

  function SetProbes(f: Bytes, h: bv32, delta: bv32, k: nat): (g: Bytes)
    requires Bits(f) > 0
    ensures |g| == |f|
    decreases k
  {
    if k == 0 then f else SetProbes(SetBit(f, N32(h) % Bits(f)), Plus(h, delta), delta, k - 1)
  }

  predicate TestProbes(f: Bytes, h: bv32, delta: bv32, k: nat)
    requires Bits(f) > 0
    decreases k
  {
    k == 0 || (TestBit(f, N32(h) % Bits(f)) && TestProbes(f, Plus(h, delta), delta, k - 1))
  }

  function AddKeys(f: Bytes, keys: seq<Bytes>, k: nat): (g: Bytes)
    requires Bits(f) > 0
    ensures |g| == |f|
    decreases |keys|
  {
    if keys == [] then f
    else
      var h := Hash(keys[0]);
      AddKeys(SetProbes(f, h, Delta(h), k), keys[1..], k)
  }

  function Size(n: nat, bitsPerKey: nat): (bytes: nat)
    ensures bytes >= 8
  {
    var bits := if n * bitsPerKey < 64 then 64 else n * bitsPerKey;
    (bits + 7) / 8
  }

  function Blank(bytes: nat, k: nat): Bytes {
    seq(bytes, i => 0 as byte) + [ByteOf(k)]
  }

  /** The filter Build returns; k is the probe count computed from the bits per key. */
  function Filter(keys: seq<Bytes>, bitsPerKey: nat, k: nat): Bytes {
    AddKeys(Blank(Size(|keys|, bitsPerKey), k), keys, k)
  }

  predicate Contains(f: Bytes, key: Bytes) {
    if |f| < 1 then true
    else if Bits(f) == 0 then true
    else if IntOf(f[|f| - 1]) > 30 then true
    else TestProbes(f, Hash(key), Delta(Hash(key)), IntOf(f[|f| - 1]))
  }

  // ---- Setting bits loses none ----

  /** g has the size and probe count of f and every bit that f has. */
  ghost predicate Kept(f: Bytes, g: Bytes) {
    |f| == |g| > 0 && f[|f| - 1] == g[|g| - 1] &&
    forall pos: nat :: pos < Bits(f) && TestBit(f, pos) ==> TestBit(g, pos)
  }

  lemma WithHas(b: byte, i: nat, m: byte)
    requires i < 8
    ensures Has(With(b, BitMask(i)), BitMask(i))
    ensures Has(b, m) ==> Has(With(b, BitMask(i)), m)
  {
    var mask := BitMask(i);
    assert (b | mask) & mask == mask;
    WithKeeps(b, mask, m);
  }

  lemma WithKeeps(b: byte, mask: byte, m: byte)
    ensures Has(b, m) ==> Has(With(b, mask), m)
  {
  }

  lemma SetBitKeeps(f: Bytes, pos: nat)
    requires pos < Bits(f)
    ensures Kept(f, SetBit(f, pos)) && TestBit(SetBit(f, pos), pos)
  {
    hide Has, With, BitMask;
    WithHas(f[pos / 8], pos % 8, BitMask(pos % 8));
    forall p: nat | p < Bits(f) && TestBit(f, p)
      ensures TestBit(SetBit(f, pos), p)
    {
      WithHas(f[pos / 8], pos % 8, BitMask(p % 8));
    }
  }

  lemma {:induction false} SetProbesKeeps(f: Bytes, h: bv32, delta: bv32, k: nat)
    requires Bits(f) > 0
    ensures Kept(f, SetProbes(f, h, delta, k))
    decreases k
  {
    hide Plus, N32, SetBit, TestBit;
    if k > 0 {
      var f' := SetBit(f, N32(h) % Bits(f));
      SetBitKeeps(f, N32(h) % Bits(f));
      SetProbesKeeps(f', Plus(h, delta), delta, k - 1);
    }
  }

  lemma {:induction false} KeptProbes(f: Bytes, g: Bytes, h: bv32, delta: bv32, k: nat)
    requires Kept(f, g) && Bits(f) > 0 && TestProbes(f, h, delta, k)
    ensures TestProbes(g, h, delta, k)
    decreases k
  {
    hide Plus, N32, TestBit;
    if k > 0 { KeptProbes(f, g, Plus(h, delta), delta, k - 1); }
  }

  /** Setting a key's probes makes all of them test true. */
  lemma {:induction false} SetProbesTest(f: Bytes, h: bv32, delta: bv32, k: nat)
    requires Bits(f) > 0
    ensures TestProbes(SetProbes(f, h, delta, k), h, delta, k)
    decreases k
  {
    hide Plus, N32, SetBit, TestBit;
    if k > 0 {
      var f' := SetBit(f, N32(h) % Bits(f));
      SetBitKeeps(f, N32(h) % Bits(f));
      SetProbesKeeps(f', Plus(h, delta), delta, k - 1);
      SetProbesTest(f', Plus(h, delta), delta, k - 1);
    }
  }

  lemma {:induction false} AddKeysKeeps(f: Bytes, keys: seq<Bytes>, k: nat)
    requires Bits(f) > 0
    ensures Kept(f, AddKeys(f, keys, k))
    decreases |keys|
  {
    hide Delta, Hash, TestBit, SetProbes;
    if keys != [] {
      var h := Hash(keys[0]);
      SetProbesKeeps(f, h, Delta(h), k);
      AddKeysKeeps(SetProbes(f, h, Delta(h), k), keys[1..], k);
    }
  }

  lemma {:induction false} AddKeysTest(f: Bytes, keys: seq<Bytes>, k: nat, i: nat)
    requires Bits(f) > 0 && i < |keys|
    ensures TestProbes(AddKeys(f, keys, k), Hash(keys[i]), Delta(Hash(keys[i])), k)
    decreases |keys|
  {
    hide Delta, Hash, TestBit, SetProbes, TestProbes;
    var h := Hash(keys[0]);
    var f' := SetProbes(f, h, Delta(h), k);
    if i == 0 {
      SetProbesTest(f, h, Delta(h), k);
      AddKeysKeeps(f', keys[1..], k);
      KeptProbes(f', AddKeys(f', keys[1..], k), h, Delta(h), k);
    } else {
      AddKeysTest(f', keys[1..], k, i - 1);
    }
  }

  /** No false negatives: every key built in is reported, for any bits per key and any probe count up to 30. */
  lemma NoFalseNegatives(keys: seq<Bytes>, bitsPerKey: nat, k: nat, i: nat)
    requires 1 <= k <= 30 && i < |keys|
    ensures Contains(Filter(keys, bitsPerKey, k), keys[i])
  {
    hide Delta, Hash, TestBit, TestProbes, AddKeys, Size, ByteOf, IntOf;
    var blank := Blank(Size(|keys|, bitsPerKey), k);
    AddKeysKeeps(blank, keys, k);
    AddKeysTest(blank, keys, k, i);
    ByteOfValue(k);
  }

  // ---- Which bits are set, and what is reported ----

  /** The j-th value of the probe loop, which adds delta with 32-bit wrap-around. */
  function Probe(h: bv32, delta: bv32, j: nat): bv32
    decreases j
  {
    if j == 0 then h else Probe(Plus(h, delta), delta, j - 1)
  }

  /** The j-th bit position probed from h in a filter of so many bits. */
  function PositionFrom(h: bv32, delta: bv32, j: nat, bits: nat): (pos: nat)
    requires bits > 0
    ensures pos < bits
  {
    N32(Probe(h, delta, j)) % bits
  }

  /** The j-th bit position of a key. */
  function Position(key: Bytes, j: nat, bits: nat): (pos: nat)
    requires bits > 0
    ensures pos < bits
  {
    PositionFrom(Hash(key), Delta(Hash(key)), j, bits)
  }

  lemma PositionStep(h: bv32, delta: bv32, j: nat, bits: nat)
    requires bits > 0
    ensures PositionFrom(h, delta, 0, bits) == N32(h) % bits
    ensures PositionFrom(h, delta, j + 1, bits) == PositionFrom(Plus(h, delta), delta, j, bits)
  {
    hide N32, Plus;
  }

  /** The second hash is the first rotated right by 17. */
  lemma DeltaRotates(h: bv32)
    ensures (Delta(h) << 17) | (Delta(h) >> 15) == h
  {
  }

  function PowerOfTwo(n: nat): nat {
    if n == 0 then 1 else 2 * PowerOfTwo(n - 1)
  }

  /** Bit i of a byte is the one of weight 2^i. */
  lemma MaskValue(i: nat)
    requires i < 8
    ensures IntOf(BitMask(i)) == PowerOfTwo(i)
  {
    assert PowerOfTwo(4) == 2 * PowerOfTwo(3) && PowerOfTwo(6) == 2 * PowerOfTwo(5);
  }

  ghost predicate AllSet(f: Bytes, h: bv32, delta: bv32, k: nat)
    requires Bits(f) > 0
  {
    forall j: nat :: j < k ==> TestBit(f, PositionFrom(h, delta, j, Bits(f)))
  }

  lemma AllSetStep(f: Bytes, h: bv32, delta: bv32, k: nat)
    requires Bits(f) > 0 && k > 0
    ensures AllSet(f, h, delta, k) <==> TestBit(f, N32(h) % Bits(f)) && AllSet(f, Plus(h, delta), delta, k - 1)
  {
    hide Plus, N32, TestBit, PositionFrom;
    var bits := Bits(f);
    PositionStep(h, delta, 0, bits);
    if AllSet(f, h, delta, k) {
      forall j: nat | j < k - 1
        ensures TestBit(f, PositionFrom(Plus(h, delta), delta, j, bits))
      {
        PositionStep(h, delta, j, bits);
      }
    }
    if TestBit(f, N32(h) % bits) && AllSet(f, Plus(h, delta), delta, k - 1) {
      forall j: nat | j < k
        ensures TestBit(f, PositionFrom(h, delta, j, bits))
      {
        if j > 0 { PositionStep(h, delta, j - 1, bits); }
      }
    }
  }

  lemma {:induction false} TestProbesIff(f: Bytes, h: bv32, delta: bv32, k: nat)
    requires Bits(f) > 0
    ensures TestProbes(f, h, delta, k) <==> AllSet(f, h, delta, k)
    decreases k
  {
    hide Plus, N32, TestBit, PositionFrom;
    if k > 0 {
      hide AllSet;
      AllSetStep(f, h, delta, k);
      TestProbesIff(f, Plus(h, delta), delta, k - 1);
    }
  }

  /** A key is reported exactly when all its positions are set, unless the filter is malformed. */
  lemma ContainsIff(f: Bytes, key: Bytes)
    ensures |f| <= 1 || IntOf(f[|f| - 1]) > 30 ==> Contains(f, key)
    ensures |f| > 1 && IntOf(f[|f| - 1]) <= 30 ==>
              (Contains(f, key) <==>
               forall j: nat :: j < IntOf(f[|f| - 1]) ==> TestBit(f, Position(key, j, Bits(f))))
  {
    hide Delta, Hash, TestBit, IntOf, TestProbes, PositionFrom;
    if |f| > 1 {
      TestProbesIff(f, Hash(key), Delta(Hash(key)), IntOf(f[|f| - 1]));
      forall j: nat
        ensures Position(key, j, Bits(f)) == PositionFrom(Hash(key), Delta(Hash(key)), j, Bits(f))
      {
      }
    }
  }

  lemma MasksApart(b: byte, i: nat, m: nat)
    requires i < 8 && m < 8
    ensures Has(With(b, BitMask(i)), BitMask(m)) <==> Has(b, BitMask(m)) || i == m
  {
  }

  lemma SetBitIff(f: Bytes, pos: nat, q: nat)
    requires pos < Bits(f) && q < Bits(f)
    ensures TestBit(SetBit(f, pos), q) <==> TestBit(f, q) || q == pos
  {
    hide Has, With, BitMask;
    MasksApart(f[pos / 8], pos % 8, q % 8);
  }

  ghost predicate ProbedFrom(h: bv32, delta: bv32, k: nat, bits: nat, pos: nat)
    requires bits > 0
  {
    exists j: nat :: j < k && PositionFrom(h, delta, j, bits) == pos
  }

  lemma ProbedFromStep(h: bv32, delta: bv32, k: nat, bits: nat, pos: nat)
    requires bits > 0 && k > 0
    ensures ProbedFrom(h, delta, k, bits, pos) <==>
            N32(h) % bits == pos || ProbedFrom(Plus(h, delta), delta, k - 1, bits, pos)
  {
    hide Plus, N32, PositionFrom;
    PositionStep(h, delta, 0, bits);
    if ProbedFrom(h, delta, k, bits, pos) {
      var j: nat :| j < k && PositionFrom(h, delta, j, bits) == pos;
      if j > 0 { PositionStep(h, delta, j - 1, bits); }
    }
    if ProbedFrom(Plus(h, delta), delta, k - 1, bits, pos) {
      var j: nat :| j < k - 1 && PositionFrom(Plus(h, delta), delta, j, bits) == pos;
      PositionStep(h, delta, j, bits);
    }
  }

  lemma {:induction false} SetProbesIff(f: Bytes, h: bv32, delta: bv32, k: nat, q: nat)
    requires 0 < Bits(f) && q < Bits(f)
    ensures TestBit(SetProbes(f, h, delta, k), q) <==> TestBit(f, q) || ProbedFrom(h, delta, k, Bits(f), q)
    decreases k
  {
    hide Plus, N32, SetBit, TestBit, PositionFrom;
    if k > 0 {
      var pos, h' := N32(h) % Bits(f), Plus(h, delta);
      SetBitIff(f, pos, q);
      SetBitKeeps(f, pos);
      ProbedFromStep(h, delta, k, Bits(f), q);
      SetProbesIff(SetBit(f, pos), h', delta, k - 1, q);
    }
  }

  /** Position pos is one of some key's. */
  ghost predicate Probed(keys: seq<Bytes>, k: nat, bits: nat, pos: nat)
    requires bits > 0
  {
    exists i: nat, j: nat :: i < |keys| && j < k && Position(keys[i], j, bits) == pos
  }

  lemma ProbedCons(keys: seq<Bytes>, k: nat, bits: nat, pos: nat)
    requires keys != [] && bits > 0
    ensures Probed(keys, k, bits, pos) <==>
            (exists j: nat :: j < k && Position(keys[0], j, bits) == pos) || Probed(keys[1..], k, bits, pos)
  {
    hide Position;
    if Probed(keys, k, bits, pos) {
      var i: nat, j: nat :| i < |keys| && j < k && Position(keys[i], j, bits) == pos;
      if i > 0 { assert keys[1..][i - 1] == keys[i]; }
    }
    if Probed(keys[1..], k, bits, pos) {
      var i: nat, j: nat :| i < |keys[1..]| && j < k && Position(keys[1..][i], j, bits) == pos;
      assert keys[i + 1] == keys[1..][i];
    }
  }

  lemma {:induction false} AddKeysIff(f: Bytes, keys: seq<Bytes>, k: nat, pos: nat)
    requires 0 < Bits(f) && pos < Bits(f)
    ensures TestBit(AddKeys(f, keys, k), pos) <==> TestBit(f, pos) || Probed(keys, k, Bits(f), pos)
    decreases |keys|
  {
    hide Delta, Hash, TestBit, SetProbes, PositionFrom, Probed;
    if keys == [] {
      NothingProbed(k, Bits(f), pos);
    } else {
      var h := Hash(keys[0]);
      var f' := SetProbes(f, h, Delta(h), k);
      SetProbesIff(f, h, Delta(h), k, pos);
      AddKeysIff(f', keys[1..], k, pos);
      ProbedCons(keys, k, Bits(f), pos);
      KeyProbed(keys[0], k, Bits(f), pos);
    }
  }

  lemma NothingProbed(k: nat, bits: nat, pos: nat)
    requires bits > 0
    ensures !Probed([], k, bits, pos)
  {
  }

  lemma KeyProbed(key: Bytes, k: nat, bits: nat, pos: nat)
    requires bits > 0
    ensures ProbedFrom(Hash(key), Delta(Hash(key)), k, bits, pos) <==>
            exists j: nat :: j < k && Position(key, j, bits) == pos
  {
    hide Delta, Hash, PositionFrom;
    if ProbedFrom(Hash(key), Delta(Hash(key)), k, bits, pos) {
      var j: nat :| j < k && PositionFrom(Hash(key), Delta(Hash(key)), j, bits) == pos;
      assert Position(key, j, bits) == pos;
    }
  }

  /**
   * What Build makes: at least 64 bits and at least the bits per key for every key, rounded up to whole bytes; the
   * probe count in one more byte; and a bit is set exactly when it is one of the k positions of some key.
   */
  lemma FilterIs(keys: seq<Bytes>, bitsPerKey: nat, k: nat)
    requires 1 <= k <= 30
    ensures var f := Filter(keys, bitsPerKey, k);
            var bits := 8 * (|f| - 1);
            bits >= 64 && bits >= |keys| * bitsPerKey && (bits < |keys| * bitsPerKey + 8 || bits == 64) &&
            IntOf(f[|f| - 1]) == k &&
            forall pos: nat :: pos < bits ==> (TestBit(f, pos) <==> Probed(keys, k, bits, pos))
  {
    hide TestBit, AddKeys, ByteOf, IntOf, Size, Probed;
    SizeIs(|keys|, bitsPerKey);
    var blank := Blank(Size(|keys|, bitsPerKey), k);
    AddKeysKeeps(blank, keys, k);
    ByteOfValue(k);
    forall pos: nat | pos < Bits(blank)
      ensures TestBit(Filter(keys, bitsPerKey, k), pos) <==> Probed(keys, k, Bits(blank), pos)
    {
      AddKeysIff(blank, keys, k, pos);
      BlankUnset(Size(|keys|, bitsPerKey), k, pos);
    }
  }

  lemma SizeIs(n: nat, bitsPerKey: nat)
    ensures var bits := 8 * Size(n, bitsPerKey);
            bits >= 64 && bits >= n * bitsPerKey && (bits < n * bitsPerKey + 8 || bits == 64)
  {
  }

  lemma BlankUnset(bytes: nat, k: nat, pos: nat)
    requires pos < 8 * bytes
    ensures !TestBit(Blank(bytes, k), pos)
  {
    hide BitMask, ByteOf;
    NothingSet(BitMask(pos % 8));
  }

  lemma NothingSet(mask: byte)
    ensures !Has(0, mask)
  {
  }

  // ---- The code's loops ----

  /** The inner loop of Build: sets one key's bits in place. */
  method SetKey(filter: array<byte>, key: Bytes, k: nat)
    requires filter.Length > 1
    modifies filter
    ensures filter[..] == SetProbes(old(filter[..]), Hash(key), Delta(Hash(key)), k)
  {
    hide Hash, Delta, Plus, N32, With, BitMask;
    var bits := (filter.Length - 1) * 8;
    ghost var before := filter[..];
    var h := BloomHash(key);
    var delta := Delta(h);
    var j := 0;
    while j < k
      invariant 0 <= j <= k
      invariant SetProbes(filter[..], h, delta, k - j) == SetProbes(before, Hash(key), delta, k)
    {
      var bitpos := N32(h) % bits;
      ghost var f := filter[..];
      filter[bitpos / 8] := With(filter[bitpos / 8], BitMask(bitpos % 8));
      assert filter[..] == SetBit(f, bitpos);
      h := Plus(h, delta);
      j := j + 1;
    }
  }

  method Build(keys: seq<Bytes>, bitsPerKey: nat, k: nat) returns (out: Bytes)
    requires 1 <= k <= 30
    ensures out == Filter(keys, bitsPerKey, k)
  {
    hide Hash, Delta, SetProbes, ByteOf, Size;
    var bytes := Size(|keys|, bitsPerKey);
    var filter := new byte[bytes + 1](i => 0);
    filter[bytes] := ByteOf(k);
    assert filter[..] == Blank(bytes, k);
    var i := 0;
    assert keys[0..] == keys;
    while i < |keys|
      invariant 0 <= i <= |keys|
      invariant AddKeys(filter[..], keys[i..], k) == Filter(keys, bitsPerKey, k)
    {
      assert keys[i..][1..] == keys[i + 1..];
      SetKey(filter, keys[i], k);
      i := i + 1;
    }
    out := filter[..];
  }

  method MayContain(filter: Bytes, key: Bytes) returns (r: bool)
    ensures r == Contains(filter, key)
    ensures |filter| <= 1 || IntOf(filter[|filter| - 1]) > 30 ==> r
    ensures |filter| > 1 && IntOf(filter[|filter| - 1]) <= 30 ==>
              (r <==> forall j: nat :: j < IntOf(filter[|filter| - 1]) ==>
                        TestBit(filter, Position(key, j, Bits(filter))))
  {
    hide Hash, Delta, Plus, N32, TestBit, IntOf, Position;
    ContainsIff(filter, key);
    if |filter| < 1 { return true; }
    var bits := (|filter| - 1) * 8;
    if bits == 0 { return true; }
    var k := IntOf(filter[|filter| - 1]);
    if k > 30 { return true; }
    var h := BloomHash(key);
    var delta := Delta(h);
    var j := 0;
    while j < k
      invariant 0 <= j <= k
      invariant TestProbes(filter, h, delta, k - j) == Contains(filter, key)
    {
      if !TestBit(filter, N32(h) % bits) { return false; }
      h := Plus(h, delta);
      j := j + 1;
    }
    r := true;
  }
}
