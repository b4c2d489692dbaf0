/** Keys, values with tombstones, operations, and sorted entry lists as the contents of std::map. */
module Kv {
  import opened Bytes

  /** A value or a delete marker, as kept per key in a memtable and per entry in a table. */
  datatype Val = Live(value: Bytes) | Tombstone

  datatype Entry = Entry(key: Bytes, val: Val)

  datatype Op = Put(key: Bytes, value: Bytes) | Delete(key: Bytes)

  type Table = map<Bytes, Val>
  type Plain = map<Bytes, Bytes>
  type Batch = seq<Op>

  // ---- Operations ----

  function OpVal(op: Op): Val {
    match op case Put(_, v) => Live(v) case Delete(_) => Tombstone
  }

  function ApplyOps(m: Table, ops: seq<Op>): Table
    decreases |ops|
  {
    if ops == [] then m else ApplyOps(m[ops[0].key := OpVal(ops[0])], ops[1..])
  }

  /** What the ops alone leave behind: the last one to touch each key. */
  function Effect(ops: seq<Op>): Table {
    ApplyOps(map[], ops)
  }

  lemma {:induction false} ApplyIsOverlay(m: Table, ops: seq<Op>)
    ensures ApplyOps(m, ops) == m + Effect(ops)
    decreases |ops|
  {
    if ops == [] {
      assert m + map[] == m;
    } else {
      var k, v := ops[0].key, OpVal(ops[0]);
      ApplyIsOverlay(m[k := v], ops[1..]);
      ApplyIsOverlay(map[k := v], ops[1..]);
      assert (map[])[k := v] == map[k := v];
      assert m[k := v] + Effect(ops[1..]) == m + (map[k := v] + Effect(ops[1..]));
    }
  }

  lemma {:induction false} ApplyAppend(m: Table, a: seq<Op>, b: seq<Op>)
    ensures ApplyOps(m, a + b) == ApplyOps(ApplyOps(m, a), b)
    decreases |a|
  {
    if a == [] {
      assert a + b == b;
    } else {
      assert (a + b)[1..] == a[1..] + b;
      ApplyAppend(m[a[0].key := OpVal(a[0])], a[1..], b);
    }
  }

  /** Replaying ops that the map already holds changes nothing, even when more ops follow them. */
  lemma ReplayIdempotent(m: Table, flushed: seq<Op>, again: seq<Op>, fresh': seq<Op>)
    ensures ApplyOps(ApplyOps(m, flushed + again), again + fresh') == ApplyOps(m, flushed + again + fresh')
  {
    var base := ApplyOps(m, flushed);
    ApplyAppend(m, flushed, again);
    ApplyAppend(m, flushed + again, fresh');
    ApplyAppend(ApplyOps(base, again), again, fresh');
    ApplyIsOverlay(base, again);
    ApplyIsOverlay(ApplyOps(base, again), again);
    assert base + Effect(again) + Effect(again) == base + Effect(again);
  }

  function PlainApply(m: Plain, ops: seq<Op>): Plain
    decreases |ops|
  {
    if ops == [] then m
    else
      match ops[0]
      case Put(k, v) => PlainApply(m[k := v], ops[1..])
      case Delete(k) => PlainApply(m - {k}, ops[1..])
  }

  /** What a key maps to is decided by the last operation on it. */
  lemma {:induction false} LastOpWins(m: Plain, ops: seq<Op>, i: nat)
    requires i < |ops| && forall j :: i < j < |ops| ==> ops[j].key != ops[i].key
    ensures var m', key := PlainApply(m, ops), ops[i].key;
            if ops[i].Put? then key in m' && m'[key] == ops[i].value else key !in m'
    decreases |ops|
  {
    var rest := ops[1..];
    var m1 := PlainApply(m, [ops[0]]);
    OneOp(m, ops);
    if i > 0 {
      assert rest[i - 1] == ops[i];
      LastOpWins(m1, rest, i - 1);
    } else {
      OthersKept(m1, rest, ops[0].key);
    }
  }

  lemma OneOp(m: Plain, ops: seq<Op>)
    requires ops != []
    ensures ops[0].Put? ==> PlainApply(m, [ops[0]]) == m[ops[0].key := ops[0].value]
    ensures ops[0].Delete? ==> PlainApply(m, [ops[0]]) == m - {ops[0].key}
    ensures PlainApply(m, ops) == PlainApply(PlainApply(m, [ops[0]]), ops[1..])
  {
    assert [ops[0]][1..] == [];
  }

  /** A key no operation names keeps what it maps to. */
  lemma {:induction false} OthersKept(m: Plain, ops: seq<Op>, key: Bytes)
    requires forall j :: 0 <= j < |ops| ==> ops[j].key != key
    ensures var m' := PlainApply(m, ops); (key in m' <==> key in m) && (key in m ==> m'[key] == m[key])
    decreases |ops|
  {
    if ops != [] {
      OneOp(m, ops);
      OthersKept(PlainApply(m, [ops[0]]), ops[1..], key);
    }
  }

  /** The user's view of a table: its live values. */
  function Visible(m: Table): Plain {
    map k | k in m && m[k].Live? :: m[k].value
  }

  lemma {:induction false} VisibleApply(m: Table, ops: seq<Op>)
    ensures Visible(ApplyOps(m, ops)) == PlainApply(Visible(m), ops)
    decreases |ops|
  {
    if ops != [] {
      var m' := m[ops[0].key := OpVal(ops[0])];
      VisibleApply(m', ops[1..]);
      match ops[0]
      case Put(k, v) => assert Visible(m') == Visible(m)[k := v];
      case Delete(k) => assert Visible(m') == Visible(m) - {k};
    }
  }

  function ApplyBatches(m: Table, batches: seq<Batch>): Table
    decreases |batches|
  {
    if batches == [] then m else ApplyBatches(ApplyOps(m, batches[0]), batches[1..])
  }

  function PlainApplyAll(m: Plain, batches: seq<Batch>): Plain
    decreases |batches|
  {
    if batches == [] then m else PlainApplyAll(PlainApply(m, batches[0]), batches[1..])
  }

  function AllOps(batches: seq<Batch>): seq<Op> {
    if batches == [] then [] else batches[0] + AllOps(batches[1..])
  }

  lemma {:induction false} PlainApplyAppend(m: Plain, a: seq<Op>, b: seq<Op>)
    ensures PlainApply(m, a + b) == PlainApply(PlainApply(m, a), b)
    decreases |a|
  {
    if a == [] {
      assert a + b == b;
    } else {
      assert (a + b)[1..] == a[1..] + b;
      OneOp(m, a);
      OneOp(m, a + b);
      PlainApplyAppend(PlainApply(m, [a[0]]), a[1..], b);
    }
  }

  /** Applying batches in order is applying all their operations in order. */
  lemma {:induction false} BatchesInOrder(m: Plain, batches: seq<Batch>)
    ensures PlainApplyAll(m, batches) == PlainApply(m, AllOps(batches))
    decreases |batches|
  {
    if batches != [] {
      PlainApplyAppend(m, batches[0], AllOps(batches[1..]));
      BatchesInOrder(PlainApply(m, batches[0]), batches[1..]);
    }
  }

  lemma {:induction false} PlainApplyAllSnoc(m: Plain, batches: seq<Batch>, b: Batch)
    ensures PlainApplyAll(m, batches + [b]) == PlainApply(PlainApplyAll(m, batches), b)
    decreases |batches|
  {
    if batches == [] {
      assert batches + [b] == [b];
      assert PlainApplyAll(m, [b]) == PlainApplyAll(PlainApply(m, b), []);
    } else {
      assert (batches + [b])[1..] == batches[1..] + [b];
      PlainApplyAllSnoc(PlainApply(m, batches[0]), batches[1..], b);
    }
  }

  // ---- Iterating a std::map: its keys in ascending order ----

  predicate IsMin(k: Bytes, s: set<Bytes>) {
    k in s && forall x :: x in s ==> LessEq(k, x)
  }

  lemma {:induction false} MinExists(s: set<Bytes>)
    requires s != {}
    ensures exists k :: IsMin(k, s)
    decreases |s|
  {
    var x :| x in s;
    if s == {x} {
      assert IsMin(x, s);
    } else {
      var t := s - {x};
      assert t != {};
      MinExists(t);
      var k :| IsMin(k, t);
      LessTotal(k, x);
      if LessEq(k, x) {
        assert IsMin(k, s);
      } else {
        forall y | y in s
          ensures LessEq(x, y)
        {
          if y != x {
            assert y in t && LessEq(k, y);
            if k != y { LessTransitive(x, k, y); }
          }
        }
        assert IsMin(x, s);
      }
    }
  }

  lemma MinUnique(s: set<Bytes>)
    ensures forall a, b :: IsMin(a, s) && IsMin(b, s) ==> a == b
  {
    forall a, b | IsMin(a, s) && IsMin(b, s)
      ensures a == b
    {
      Trichotomy(a, b);
    }
  }

  lemma MinFirst(k: Bytes, s: set<Bytes>, rest: seq<Bytes>)
    requires IsMin(k, s) && StrictlySorted(rest) && forall x :: x in rest <==> x in s - {k}
    ensures StrictlySorted([k] + rest)
    ensures forall x :: x in [k] + rest <==> x in s
  {
    hide Less;
    var ks := [k] + rest;
    forall i, j | 0 <= i < j < |ks|
      ensures Less(ks[i], ks[j])
    {
      assert ks[j] in rest && ks[j] in s;
      assert LessEq(k, ks[j]);
    }
  }

  function SortedKeys(s: set<Bytes>): (ks: seq<Bytes>)
    ensures StrictlySorted(ks)
    ensures forall k :: k in ks <==> k in s
    decreases |s|
  {
    if s == {} then []
    else
      MinExists(s);
      MinUnique(s);
      var k :| IsMin(k, s);
      var rest := SortedKeys(s - {k});
      MinFirst(k, s, rest);
      [k] + rest
  }

  /** A set of keys has one ascending listing. */
  lemma {:induction false} SortedUnique(a: seq<Bytes>, b: seq<Bytes>)
    requires StrictlySorted(a) && StrictlySorted(b)
    requires forall k :: k in a <==> k in b
    ensures a == b
  {
    HeadIn(a);
    HeadIn(b);
    if a != [] && b != [] {
      HeadIsLeast(a, b[0]);
      HeadIsLeast(b, a[0]);
      Trichotomy(a[0], b[0]);
      TailElements(a);
      TailElements(b);
      SortedUnique(a[1..], b[1..]);
      assert a == [a[0]] + a[1..] && b == [b[0]] + b[1..];
    }
  }

  lemma HeadIn(a: seq<Bytes>)
    ensures a != [] ==> a[0] in a
  {
  }

  lemma HeadIsLeast(a: seq<Bytes>, k: Bytes)
    requires StrictlySorted(a) && k in a
    ensures LessEq(a[0], k)
  {
  }

  lemma TailElements(a: seq<Bytes>)
    requires StrictlySorted(a) && a != []
    ensures forall k :: k in a[1..] <==> k in a && k != a[0]
  {
    LessIrreflexive(a[0]);
    forall k | k in a && k != a[0]
      ensures k in a[1..]
    {
      var i :| 0 <= i < |a| && a[i] == k;
      assert a[1..][i - 1] == k;
    }
  }

  // ---- Entry lists ----

  function Keys(es: seq<Entry>): (ks: seq<Bytes>)
    ensures |ks| == |es| && forall i :: 0 <= i < |es| ==> ks[i] == es[i].key
  {
    seq(|es|, i requires 0 <= i < |es| => es[i].key)
  }

  ghost predicate SortedEntries(es: seq<Entry>) {
    StrictlySorted(Keys(es))
  }

  /** for (auto& e : entries) merged[e.key] = e; */
  function Insert(m: Table, es: seq<Entry>): Table
    decreases |es|
  {
    if es == [] then m else Insert(m[es[0].key := es[0].val], es[1..])
  }

  function TableOf(es: seq<Entry>): Table {
    Insert(map[], es)
  }

  lemma {:induction false} InsertIsOverlay(m: Table, es: seq<Entry>)
    ensures Insert(m, es) == m + TableOf(es)
    decreases |es|
  {
    if es == [] {
      assert m + map[] == m;
    } else {
      var k, v := es[0].key, es[0].val;
      InsertIsOverlay(m[k := v], es[1..]);
      InsertIsOverlay(map[k := v], es[1..]);
      assert (map[])[k := v] == map[k := v];
      assert m[k := v] + TableOf(es[1..]) == m + (map[k := v] + TableOf(es[1..]));
    }
  }

  lemma {:induction false} InsertAppend(m: Table, a: seq<Entry>, b: seq<Entry>)
    ensures Insert(m, a + b) == Insert(Insert(m, a), b)
    decreases |a|
  {
    if a == [] {
      assert a + b == b;
    } else {
      assert (a + b)[1..] == a[1..] + b;
      InsertAppend(m[a[0].key := a[0].val], a[1..], b);
    }
  }

  lemma TableOfAppend(a: seq<Entry>, b: seq<Entry>)
    ensures TableOf(a + b) == TableOf(a) + TableOf(b)
  {
    InsertAppend(map[], a, b);
    InsertIsOverlay(TableOf(a), b);
  }

  lemma TableOfOne(e: Entry)
    ensures TableOf([e]) == map[e.key := e.val]
  {
    assert [e][1..] == [];
    assert (map[])[e.key := e.val] == map[e.key := e.val];
    assert Insert(map[e.key := e.val], []) == map[e.key := e.val];
  }

  lemma {:induction false} TableOfKeys(es: seq<Entry>)
    ensures forall k :: k in TableOf(es) <==> k in Keys(es)
  {
    if es != [] {
      var n := |es| - 1;
      assert es == es[..n] + [es[n]];
      TableOfAppend(es[..n], [es[n]]);
      TableOfKeys(es[..n]);
      TableOfOne(es[n]);
      assert Keys(es) == Keys(es[..n]) + [es[n].key];
    }
  }

  /** In a strictly sorted list every entry is what its key maps to. */
  lemma {:induction false} TableOfAt(es: seq<Entry>, i: nat)
    requires SortedEntries(es) && i < |es|
    ensures es[i].key in TableOf(es) && TableOf(es)[es[i].key] == es[i].val
    decreases |es|
  {
    var n := |es| - 1;
    assert es == es[..n] + [es[n]];
    TableOfAppend(es[..n], [es[n]]);
    TableOfOne(es[n]);
    if i < n {
      assert SortedEntries(es[..n]) by {
        assert Keys(es[..n]) == Keys(es)[..n];
      }
      assert es[..n][i] == es[i];
      TableOfAt(es[..n], i);
      if es[i].key == es[n].key { SortedDistinct(Keys(es), i, n); }
    }
  }

  /** The entries of a std::map in iteration order. */
  function Entries(m: Table): (es: seq<Entry>)
    ensures SortedEntries(es)
  {
    EntriesOf(m, SortedKeys(m.Keys))
  }

  function EntriesOf(m: Table, ks: seq<Bytes>): (es: seq<Entry>)
    requires forall k :: k in ks ==> k in m
    ensures Keys(es) == ks
    ensures forall i :: 0 <= i < |ks| ==> es[i] == Entry(ks[i], m[ks[i]])
  {
    seq(|ks|, i requires 0 <= i < |ks| => Entry(ks[i], m[ks[i]]))
  }

  /** Listing a map and reading the list back gives the map. */
  lemma TableOfEntries(m: Table)
    ensures TableOf(Entries(m)) == m
  {
    var es := Entries(m);
    TableOfKeys(es);
    forall k | k in m
      ensures TableOf(es)[k] == m[k]
    {
      assert k in SortedKeys(m.Keys);
      var i: nat :| i < |es| && Keys(es)[i] == k;
      TableOfAt(es, i);
    }
  }

  /** A strictly sorted list is the listing of its own map. */
  lemma EntriesOfTable(es: seq<Entry>)
    requires SortedEntries(es)
    ensures Entries(TableOf(es)) == es
  {
    var m := TableOf(es);
    TableOfKeys(es);
    SortedUnique(SortedKeys(m.Keys), Keys(es));
    forall i | 0 <= i < |es|
      ensures Entries(m)[i] == es[i]
    {
      TableOfAt(es, i);
    }
  }

  /** The entry with the given key, if any: what a table lookup must answer. */
  function Lookup(es: seq<Entry>, key: Bytes): Option<Val> {
    var m := TableOf(es);
    if key in m then Some(m[key]) else None
  }
}
