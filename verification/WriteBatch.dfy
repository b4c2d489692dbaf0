/** Write batches (include/clomdb/write_batch.h): several operations as one byte string. */
module WriteBatches {
  import opened Bytes
  import opened Coding
  import opened Kv
  import opened MemTables

  const PUT_TAG: byte := 1
  const DELETE_TAG: byte := 2

  function EncodeOp(op: Op): Bytes {
    match op
    case Put(k, v) => [PUT_TAG] + LengthPrefixed(k) + LengthPrefixed(v)
    case Delete(k) => [DELETE_TAG] + LengthPrefixed(k)
  }

  function EncodeOps(ops: Batch): Bytes {
    if ops == [] then [] else EncodeOp(ops[0]) + EncodeOps(ops[1..])
  }

  /** The operation at the front of the input and the input after it. */
  function DecodeOp(input: Bytes): Option<(Op, Bytes)>
    requires input != []
  {
    var tag, rest := input[0], input[1..];
    if tag == PUT_TAG then
      match DecodeLengthPrefixed(rest)
      case None => None
      case Some((k, rest1)) =>
        match DecodeLengthPrefixed(rest1)
        case None => None
        case Some((v, rest2)) => Some((Put(k, v), rest2))
    else if tag == DELETE_TAG then
      match DecodeLengthPrefixed(rest)
      case None => None
      case Some((k, rest1)) => Some((Delete(k), rest1))
    else None
  }

  lemma DecodeOpShrinks(input: Bytes)
    requires input != []
    ensures var d := DecodeOp(input); d.Some? ==> |d.value.1| < |input|
  {
    hide DecodeLengthPrefixed;
    var tag, rest := input[0], input[1..];
    DecodeLengthPrefixedShrinks(rest);
    var d := DecodeLengthPrefixed(rest);
    if d.Some? { DecodeLengthPrefixedShrinks(d.value.1); }
  }

  /** The operations a handler receives from the bytes, and whether the bytes were well formed to the end. */
  function DecodeOps(input: Bytes): (Batch, bool)
    decreases |input|
  {
    if input == [] then ([], true)
    else
      match DecodeOp(input)
      case None => ([], false)
      case Some((op, rest)) =>
        DecodeOpShrinks(input);
        var (ops, ok) := DecodeOps(rest);
        ([op] + ops, ok)
  }

  predicate OpFits(op: Op) {
    |op.key| < TWO_32 && (op.Put? ==> |op.value| < TWO_32)
  }

  predicate BatchFits(ops: Batch) {
    forall i :: 0 <= i < |ops| ==> OpFits(ops[i])
  }

  lemma OpRoundTrip(op: Op, rest: Bytes)
    requires OpFits(op)
    ensures DecodeOp(EncodeOp(op) + rest) == Some((op, rest))
  {
    hide LengthPrefixed, DecodeLengthPrefixed;
    var s := EncodeOp(op) + rest;
    match op
    case Put(k, v) =>
      assert s[0] == PUT_TAG && s[1..] == LengthPrefixed(k) + (LengthPrefixed(v) + rest);
      LengthPrefixedRoundTrip(k, LengthPrefixed(v) + rest);
      LengthPrefixedRoundTrip(v, rest);
    case Delete(k) =>
      assert s[0] == DELETE_TAG && s[1..] == LengthPrefixed(k) + rest;
      LengthPrefixedRoundTrip(k, rest);
  }

  /** Decoding what was encoded delivers exactly those operations, in order. */
  lemma {:induction false} BatchRoundTrip(ops: Batch)
    requires BatchFits(ops)
    ensures DecodeOps(EncodeOps(ops)) == (ops, true)
  {
    hide EncodeOp, DecodeOp;
    if ops != [] {
      OpRoundTrip(ops[0], EncodeOps(ops[1..]));
      assert EncodeOps(ops) != [] by { EncodeOpNonEmpty(ops[0]); }
      BatchRoundTrip(ops[1..]);
      assert ops == [ops[0]] + ops[1..];
    }
  }

  /** What cannot be decoded ends the batch with an error, after every operation before it. */
  lemma {:induction false} MalformedStops(ops: Batch, bad: Bytes)
    requires BatchFits(ops) && bad != [] && DecodeOp(bad) == None
    ensures DecodeOps(EncodeOps(ops) + bad) == (ops, false)
  {
    hide EncodeOp, DecodeOp;
    if ops == [] {
      assert EncodeOps(ops) + bad == bad;
    } else {
      var more := EncodeOps(ops[1..]) + bad;
      assert EncodeOps(ops) + bad == EncodeOp(ops[0]) + more;
      OpRoundTrip(ops[0], more);
      EncodeOpNonEmpty(ops[0]);
      MalformedStops(ops[1..], bad);
      assert ops == [ops[0]] + ops[1..];
    }
  }

  /** An unknown tag is such an end. */
  lemma UnknownTag(tag: byte, rest: Bytes)
    requires tag != 1 && tag != 2
    ensures DecodeOp([tag] + rest) == None
  {
    hide DecodeLengthPrefixed;
  }

  /** So is an operation cut short. */
  lemma TornOp(op: Op, k: nat)
    requires OpFits(op) && 0 < k < |EncodeOp(op)|
    ensures DecodeOp(EncodeOp(op)[..k]) == None
  {
    hide LengthPrefixed, DecodeLengthPrefixed;
    var s, key := EncodeOp(op)[..k], LengthPrefixed(op.key);
    if k - 1 < |key| {
      TruncatedString(op.key, k - 1);
      CutAtKey(op, k);
    } else {
      var part := LengthPrefixed(op.value)[..k - 1 - |key|];
      LengthPrefixedRoundTrip(op.key, part);
      TruncatedString(op.value, k - 1 - |key|);
      CutAtValue(op, k);
    }
  }

  lemma CutAtKey(op: Op, k: nat)
    requires 0 < k <= |LengthPrefixed(op.key)|
    ensures k < |EncodeOp(op)| ==>
              EncodeOp(op)[..k][0] in {PUT_TAG, DELETE_TAG} && EncodeOp(op)[..k][1..] == LengthPrefixed(op.key)[..k - 1]
  {
    hide LengthPrefixed;
  }

  lemma CutAtValue(op: Op, k: nat)
    requires |LengthPrefixed(op.key)| < k < |EncodeOp(op)|
    ensures op.Put? && EncodeOp(op)[..k][0] == PUT_TAG
    ensures var key := LengthPrefixed(op.key);
            EncodeOp(op)[..k][1..] == key + LengthPrefixed(op.value)[..k - 1 - |key|]
  {
    hide LengthPrefixed;
  }

  lemma EncodeOpNonEmpty(op: Op)
    ensures EncodeOp(op) != []
  {
  }

  lemma {:induction false} EncodeOpsSnoc(ops: Batch, op: Op)
    ensures EncodeOps(ops + [op]) == EncodeOps(ops) + EncodeOp(op)
  {
    hide EncodeOp;
    if ops == [] {
      assert ops + [op] == [op];
      assert [op][1..] == [];
    } else {
      assert (ops + [op])[1..] == ops[1..] + [op];
      EncodeOpsSnoc(ops[1..], op);
    }
  }

  class WriteBatch {
    var rep: Bytes
    var count: nat
    ghost var ops: Batch

    constructor ()
      ensures Built() && ops == []
    {
      rep := [];
      count := 0;
      ops := [];
    }

    /** The bytes and the count are those of the operations put in so far. */
    ghost predicate Built()
      reads this
    {
      rep == EncodeOps(ops) && count == |ops|
    }

    method Put(key: Bytes, value: Bytes)
      requires Built()
      modifies this
      ensures Built() && ops == old(ops) + [Op.Put(key, value)]
    {
      hide *;
      hide EncodeOps;
      ghost var op := Op.Put(key, value);
      var r := PutLengthPrefixedSlice(rep + [PUT_TAG], key);
      r := PutLengthPrefixedSlice(r, value);
      assert r == rep + EncodeOp(op) by { PutShape(rep, key, value); }
      EncodeOpsSnoc(ops, op);
      BuiltIff(this);
      rep := r;
      count := count + 1;
      ops := ops + [op];
      BuiltIff(this);
    }

    method Delete(key: Bytes)
      requires Built()
      modifies this
      ensures Built() && ops == old(ops) + [Op.Delete(key)]
    {
      hide *;
      hide EncodeOps;
      ghost var op := Op.Delete(key);
      var r := PutLengthPrefixedSlice(rep + [DELETE_TAG], key);
      assert r == rep + EncodeOp(op) by { DeleteShape(rep, key); }
      EncodeOpsSnoc(ops, op);
      BuiltIff(this);
      rep := r;
      count := count + 1;
      ops := ops + [op];
      BuiltIff(this);
    }

    static lemma BuiltIff(b: WriteBatch)
      ensures b.Built() <==> b.rep == EncodeOps(b.ops) && b.count == |b.ops|
    {
    }

    static lemma PutShape(r: Bytes, key: Bytes, value: Bytes)
      ensures r + [PUT_TAG] + LengthPrefixed(key) + LengthPrefixed(value) == r + EncodeOp(Op.Put(key, value))
    {
      hide LengthPrefixed;
    }

    static lemma DeleteShape(r: Bytes, key: Bytes)
      ensures r + [DELETE_TAG] + LengthPrefixed(key) == r + EncodeOp(Op.Delete(key))
    {
      hide LengthPrefixed;
    }

    predicate Empty()
      reads this
    {
      count == 0
    }

    /** Replaces the bytes and leaves the count alone, as log replay does. */
    method SetData(d: Bytes)
      modifies this
      ensures rep == d && count == old(count)
    {
      rep := d;
    }

    /**
     * Drives a memtable with the operations in the bytes. The memtable receives every operation before the
     * first malformed one; the status is OK only if there was none and their number is the count.
     */
    method Iterate(mt: MemTable) returns (ok: bool)
      modifies mt
      ensures mt.View() == MemApply(old(mt.View()), DecodeOps(rep).0)
      ensures ok <==> DecodeOps(rep).1 && |DecodeOps(rep).0| == count
    {
      hide DecodeLengthPrefixed, DecodeOps, MemApply;
      var input := rep;
      var seen := 0;
      ghost var start := mt.View();
      ghost var done: Batch := [];
      assert done + DecodeOps(rep).0 == DecodeOps(rep).0;
      MemApplyNone(start);
      while input != []
        invariant DecodeOps(rep) == (done + DecodeOps(input).0, DecodeOps(input).1)
        invariant mt.View() == MemApply(start, done)
        invariant seen == |done|
        decreases |input|
      {
        DecodeOpShrinks(input);
        DecodeOpsUnfold(done, input);
        ghost var here := input;
        var tag := input[0];
        var rest := input[1..];
        if tag == PUT_TAG {
          var k := GetLengthPrefixedSlice(rest);
          if k == None { return false; }
          var v := GetLengthPrefixedSlice(k.value.1);
          if v == None { return false; }
          mt.Put(k.value.0, v.value.0);
          input := v.value.1;
        } else if tag == DELETE_TAG {
          var k := GetLengthPrefixedSlice(rest);
          if k == None { return false; }
          mt.Delete(k.value.0);
          input := k.value.1;
        } else {
          return false;
        }
        ghost var op := DecodeOp(here).value.0;
        MemApplySnoc(start, done, op);
        done := done + [op];
        seen := seen + 1;
      }
      DecodeOpsUnfold(done, []);
      ok := seen == count;
    }
  }

  /** One step of Iterate, with the operations delivered so far in front. */
  lemma DecodeOpsUnfold(done: Batch, input: Bytes)
    ensures input == [] ==> (done + DecodeOps(input).0, DecodeOps(input).1) == (done, true)
    ensures input != [] && DecodeOp(input) == None ==> (done + DecodeOps(input).0, DecodeOps(input).1) == (done, false)
    ensures input != [] && DecodeOp(input).Some? ==>
              var (op, rest) := DecodeOp(input).value;
              (done + DecodeOps(input).0, DecodeOps(input).1) == (done + [op] + DecodeOps(rest).0, DecodeOps(rest).1)
  {
    hide DecodeOp;
    assert done + [] == done;
    if input != [] && DecodeOp(input).Some? {
      var (op, rest) := DecodeOp(input).value;
      assert done + ([op] + DecodeOps(rest).0) == done + [op] + DecodeOps(rest).0;
    }
  }

  lemma MemApplyNone(m: Mem)
    ensures MemApply(m, []) == m
  {
  }

  /** A batch built by Put and Delete and iterated delivers its operations with status OK. */
  method ApplyBuilt(b: WriteBatch, mt: MemTable) returns (ok: bool)
    requires b.Built() && BatchFits(b.ops)
    modifies mt
    ensures ok && mt.View() == MemApply(old(mt.View()), b.ops)
  {
    BatchRoundTrip(b.ops);
    ok := b.Iterate(mt);
  }

  /** Log replay: the operations are delivered, and the status is Corruption unless there were none. */
  method ApplyReplayed(ghost ops: Batch, data: Bytes, mt: MemTable) returns (ok: bool)
    requires data == EncodeOps(ops) && BatchFits(ops)
    modifies mt
    ensures mt.View() == MemApply(old(mt.View()), ops)
    ensures ok <==> ops == []
  {
    BatchRoundTrip(ops);
    var b := new WriteBatch();
    b.SetData(data);
    ok := b.Iterate(mt);
  }
}
