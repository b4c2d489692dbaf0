/** The memtable (include/clomdb/memtable.h). */
module MemTables {
  import opened Bytes
  import opened Kv

  /** A memtable's contents: what it maps, and the running byte estimate that overwrites never lower. */
  datatype Mem = Mem(table: Table, approx: nat)

  const EMPTY: Mem := Mem(map[], 0)

  function OpBytes(op: Op): nat {
    match op case Put(k, v) => |k| + |v| case Delete(k) => |k|
  }

  function MemApply(m: Mem, ops: seq<Op>): Mem
    decreases |ops|
  {
    if ops == [] then m
    else MemApply(Mem(m.table[ops[0].key := OpVal(ops[0])], m.approx + OpBytes(ops[0])), ops[1..])
  }

  function MemReplay(m: Mem, batches: seq<Batch>): Mem
    decreases |batches|
  {
    if batches == [] then m else MemReplay(MemApply(m, batches[0]), batches[1..])
  }

  lemma {:induction false} MemApplySnoc(m: Mem, ops: seq<Op>, op: Op)
    ensures MemApply(m, ops + [op]) == MemApply(MemApply(m, ops), [op])
    decreases |ops|
  {
    if ops == [] {
      assert ops + [op] == [op];
    } else {
      assert (ops + [op])[1..] == ops[1..] + [op];
      MemApplySnoc(Mem(m.table[ops[0].key := OpVal(ops[0])], m.approx + OpBytes(ops[0])), ops[1..], op);
    }
  }

  lemma {:induction false} MemReplaySnoc(m: Mem, batches: seq<Batch>, b: Batch)
    ensures MemReplay(m, batches + [b]) == MemApply(MemReplay(m, batches), b)
    decreases |batches|
  {
    if batches == [] {
      assert batches + [b] == [b];
      assert MemReplay(m, [b]) == MemReplay(MemApply(m, b), []);
    } else {
      assert (batches + [b])[1..] == batches[1..] + [b];
      MemReplaySnoc(MemApply(m, batches[0]), batches[1..], b);
    }
  }

  /** The table part is the effect of the ops; the estimate never falls; any op leaves the table non-empty. */
  lemma {:induction false} MemApplyTable(m: Mem, ops: seq<Op>)
    ensures MemApply(m, ops).table == ApplyOps(m.table, ops)
    ensures MemApply(m, ops).approx >= m.approx
    ensures ops != [] ==> MemApply(m, ops).table != map[]
    decreases |ops|
  {
    if ops != [] {
      var m' := Mem(m.table[ops[0].key := OpVal(ops[0])], m.approx + OpBytes(ops[0]));
      MemApplyTable(m', ops[1..]);
      if ops[1..] == [] { assert ops[0].key in m'.table; }
    }
  }

  /** All key and value bytes of the operations, one after another. */
  function Payload(ops: seq<Op>): Bytes {
    if ops == [] then []
    else (match ops[0] case Put(k, v) => k + v case Delete(k) => k) + Payload(ops[1..])
  }

  /** The estimate counts every key and value byte ever put in, also those that were overwritten. */
  lemma {:induction false} EstimateCountsPayload(m: Mem, ops: seq<Op>)
    ensures MemApply(m, ops).approx == m.approx + |Payload(ops)|
    decreases |ops|
  {
    if ops != [] {
      EstimateCountsPayload(Mem(m.table[ops[0].key := OpVal(ops[0])], m.approx + OpBytes(ops[0])), ops[1..]);
    }
  }

  lemma {:induction false} MemReplayTable(m: Mem, batches: seq<Batch>)
    ensures MemReplay(m, batches).table == ApplyBatches(m.table, batches)
    decreases |batches|
  {
    if batches != [] {
      MemApplyTable(m, batches[0]);
      MemReplayTable(MemApply(m, batches[0]), batches[1..]);
    }
  }

  class MemTable {
    var table: Table
    var approxBytes: nat

    constructor ()
      ensures View() == EMPTY
    {
      table := map[];
      approxBytes := 0;
    }

    ghost function View(): Mem
      reads this
    {
      Mem(table, approxBytes)
    }

    method Put(key: Bytes, value: Bytes)
      modifies this
      ensures View() == MemApply(old(View()), [Op.Put(key, value)])
    {
      approxBytes := approxBytes + |key| + |value|;
      table := table[key := Live(value)];
      Unfold(old(View()), Op.Put(key, value));
    }

    method Delete(key: Bytes)
      modifies this
      ensures View() == MemApply(old(View()), [Op.Delete(key)])
    {
      approxBytes := approxBytes + |key|;
      table := table[key := Tombstone];
      Unfold(old(View()), Op.Delete(key));
    }

    static lemma Unfold(m: Mem, op: Op)
      ensures MemApply(m, [op]) == Mem(m.table[op.key := OpVal(op)], m.approx + OpBytes(op))
    {
      assert [op][1..] == [];
    }

    /** None where the code returns false; a tombstone is found but deleted. */
    method Get(key: Bytes) returns (r: Option<Val>)
      ensures r == None <==> key !in table
      ensures r.Some? ==> r.value == table[key]
    {
      if key in table {
        r := Some(table[key]);
      } else {
        r := None;
      }
    }

    method Clear()
      modifies this
      ensures View() == EMPTY
    {
      table := map[];
      approxBytes := 0;
    }
  }
}
