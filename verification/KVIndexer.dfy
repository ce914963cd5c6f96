/** The EVM transaction index: hash to result, and (height, index) to hash, in one
    ordered key-value store that also answers which blocks were indexed. */
module KVIndexer {
  import opened Common
  import opened Wire
  import opened TxIndexKeys

  type TxHash = h: Bytes | |h| == 32 witness seq(32, _ => 0)

  datatype TxResult = TxResult(
    height: int, txIndex: nat, msgIndex: nat, ethTxIndex: int, gasUsed: nat, failed: bool, cumulativeGasUsed: nat)

  /** Stored values: a marshalled result, or the bytes of a hash. */
  datatype Value = Stored(result: TxResult) | HashBytes(hash: TxHash)

  type Db = map<Bytes, Value>

  datatype EthMsg = EthMsg(hash: TxHash, gas: nat)

  datatype ParsedTx = ParsedTx(gasUsed: nat, failed: bool)

  /** A block's transaction with its execution result: whether it succeeded or
      failed in an expected way, decodes, is an Ethereum transaction; the events
      parsed per message (None if parsing fails); whether its code is OK. */
  datatype BlockTx = BlockTx(
    included: bool, decodes: bool, isEth: bool, parsed: Option<map<nat, ParsedTx>>, codeOk: bool, msgs: seq<EthMsg>)

  datatype Block = Block(height: int, txs: seq<BlockTx>)

  /** One saveTxResult call. */
  datatype Entry = Entry(hash: TxHash, result: TxResult)

  // ---------- what indexing a block writes ----------

  /** int32: the number in range that is congruent to x. */
  function ToInt32(x: nat): (r: int)
    ensures -0x8000_0000 <= r < 0x8000_0000 && (x - r) % 0x1_0000_0000 == 0
  {
    var y := x % TWO_32;
    if y >= TWO_31 then y - TWO_32 else y
  }

  predicate Indexable(tx: BlockTx) { tx.included && tx.decodes && tx.isEth && tx.parsed.Some? }

  /** The result of message i of a transaction, unless its events are missing. */
  function MsgResult(height: int, txIndex: nat, tx: BlockTx, i: nat, next: nat, cum: nat): Option<TxResult>
    requires i < |tx.msgs| && tx.parsed.Some?
  {
    if !tx.codeOk then
      var gas := tx.msgs[i].gas;
      Some(TxResult(height, txIndex % TWO_32, i % TWO_32, ToInt32(next), gas, true, (cum + gas) % TWO_64))
    else if i !in tx.parsed.value then None
    else
      var p := tx.parsed.value[i];
      var gas := p.gasUsed;
      Some(TxResult(height, txIndex % TWO_32, i % TWO_32, ToInt32(next), gas, p.failed, (cum + gas) % TWO_64))
  }

  function MsgEntries(height: int, txIndex: nat, tx: BlockTx, i: nat, next: nat, cum: nat): seq<Entry>
    requires i <= |tx.msgs| && tx.parsed.Some?
    decreases |tx.msgs| - i
  {
    if i == |tx.msgs| then []
    else match MsgResult(height, txIndex, tx, i, next, cum)
      case None => MsgEntries(height, txIndex, tx, i + 1, next, cum)
      case Some(r) =>
        [Entry(tx.msgs[i].hash, r)] + MsgEntries(height, txIndex, tx, i + 1, next + 1, r.cumulativeGasUsed)
  }

  function TxEntries(height: int, txs: seq<BlockTx>, k: nat, next: nat): seq<Entry>
    requires k <= |txs|
    decreases |txs| - k
  {
    if k == |txs| then []
    else
      var es: seq<Entry> := if Indexable(txs[k]) then MsgEntries(height, k, txs[k], 0, next, 0) else [];
      es + TxEntries(height, txs, k + 1, next + |es|)
  }

  function Entries(b: Block): seq<Entry> { TxEntries(b.height, b.txs, 0, 0) }

  function Put(db: Db, e: Entry): Db {
    db[TxHashKey(e.hash) := Stored(e.result)][TxIndexKey(e.result.height, e.result.ethTxIndex) := HashBytes(e.hash)]
  }

  function PutAll(db: Db, es: seq<Entry>): Db
    decreases es
  {
    if es == [] then db else PutAll(Put(db, es[0]), es[1..])
  }

  // ---------- numbering ----------

  ghost predicate Numbered(es: seq<Entry>, height: int, first: nat) {
    forall k :: 0 <= k < |es| ==> es[k].result.height == height && es[k].result.ethTxIndex == ToInt32(first + k)
  }

  lemma {:induction false} MsgNumbering(height: int, txIndex: nat, tx: BlockTx, i: nat, next: nat, cum: nat)
    requires i <= |tx.msgs| && tx.parsed.Some?
    ensures Numbered(MsgEntries(height, txIndex, tx, i, next, cum), height, next)
    decreases |tx.msgs| - i
  {
    hide ToInt32;
    if i < |tx.msgs| {
      match MsgResult(height, txIndex, tx, i, next, cum)
      case None => MsgNumbering(height, txIndex, tx, i + 1, next, cum);
      case Some(r) =>
        MsgNumbering(height, txIndex, tx, i + 1, next + 1, r.cumulativeGasUsed);
        var more := MsgEntries(height, txIndex, tx, i + 1, next + 1, r.cumulativeGasUsed);
        ConsNumbered(Entry(tx.msgs[i].hash, r), more, height, next);
    }
  }

  lemma ConsNumbered(e: Entry, es: seq<Entry>, height: int, first: nat)
    requires e.result.height == height && e.result.ethTxIndex == ToInt32(first) && Numbered(es, height, first + 1)
    ensures Numbered([e] + es, height, first)
  {
    hide ToInt32;
    forall k | 0 <= k < |es| + 1
      ensures ([e] + es)[k].result.height == height && ([e] + es)[k].result.ethTxIndex == ToInt32(first + k)
    {
      if k > 0 { assert ([e] + es)[k] == es[k - 1] && first + 1 + (k - 1) == first + k; }
    }
  }

  lemma {:induction false} TxNumbering(height: int, txs: seq<BlockTx>, k: nat, next: nat)
    requires k <= |txs|
    ensures Numbered(TxEntries(height, txs, k, next), height, next)
    decreases |txs| - k
  {
    hide ToInt32, Numbered, MsgEntries;
    if k == |txs| {
      EmptyNumbered(height, next);
    } else {
      var es: seq<Entry> := if Indexable(txs[k]) then MsgEntries(height, k, txs[k], 0, next, 0) else [];
      if Indexable(txs[k]) { MsgNumbering(height, k, txs[k], 0, next, 0); } else { EmptyNumbered(height, next); }
      var more := TxEntries(height, txs, k + 1, next + |es|);
      TxNumbering(height, txs, k + 1, next + |es|);
      AppendNumbered(es, more, height, next);
    }
  }

  lemma EmptyNumbered(height: int, first: nat)
    ensures Numbered([], height, first)
  {
  }

  lemma AppendNumbered(es: seq<Entry>, more: seq<Entry>, height: int, first: nat)
    requires Numbered(es, height, first) && Numbered(more, height, first + |es|)
    ensures Numbered(es + more, height, first)
  {
    hide ToInt32;
    var all := es + more;
    forall j | 0 <= j < |all| ensures all[j].result.height == height && all[j].result.ethTxIndex == ToInt32(first + j) {
      if j < |es| {
        assert all[j] == es[j];
      } else {
        assert all[j] == more[j - |es|] && first + |es| + (j - |es|) == first + j;
      }
    }
  }

  /** The entries of a block are numbered 0 .. n-1 without holes, whatever
      transactions and messages are passed over. */
  lemma EntriesNumbered(b: Block, k: nat)
    requires k < |Entries(b)| <= TWO_31
    ensures Entries(b)[k].result.height == b.height && Entries(b)[k].result.ethTxIndex == k
  {
    TxNumbering(b.height, b.txs, 0, 0);
  }

  // ---------- what the entries describe ----------

  /** Message i of a transaction gets an entry. */
  predicate Produces(tx: BlockTx, i: nat) {
    && tx.included && tx.decodes && tx.isEth && tx.parsed.Some?
    && i < |tx.msgs| && (!tx.codeOk || i in tx.parsed.value)
  }

  /** A failed transaction is charged its whole gas limit. */
  function GasOf(tx: BlockTx, i: nat): nat
    requires Produces(tx, i)
  {
    if tx.codeOk then tx.parsed.value[i].gasUsed else tx.msgs[i].gas
  }

  /** Gas charged to the first n messages of a transaction. */
  function GasBelow(tx: BlockTx, n: nat): nat {
    if n == 0 then 0 else GasBelow(tx, n - 1) + (if Produces(tx, n - 1) then GasOf(tx, n - 1) else 0)
  }

  /** The entry e is about message i of transaction t of the block. */
  ghost predicate Describes(e: Entry, t: nat, tx: BlockTx, i: nat) {
    && Produces(tx, i)
    && e.hash == tx.msgs[i].hash
    && e.result.txIndex == t % TWO_32 && e.result.msgIndex == i % TWO_32
    && e.result.failed == (!tx.codeOk || tx.parsed.value[i].failed)
    && e.result.gasUsed == GasOf(tx, i)
    && e.result.cumulativeGasUsed == GasBelow(tx, i + 1) % TWO_64
  }

  /** A message of the block: transaction t, message i. */
  datatype Origin = Origin(t: nat, i: nat)

  ghost predicate Before(x: Origin, y: Origin) { x.t < y.t || (x.t == y.t && x.i < y.i) }

  ghost predicate InOrder(at: seq<Origin>) {
    forall j, k :: 0 <= j < k < |at| ==> Before(at[j], at[k])
  }

  ghost predicate DescribeAll(txs: seq<BlockTx>, es: seq<Entry>, at: seq<Origin>) {
    && |at| == |es|
    && forall k :: 0 <= k < |at| ==> at[k].t < |txs| && Describes(es[k], at[k].t, txs[at[k].t], at[k].i)
  }

  /** The entries es come, in block order, from exactly the messages that produce
      one, starting with message i of transaction t. */
  ghost predicate OriginsFrom(txs: seq<BlockTx>, es: seq<Entry>, at: seq<Origin>, start: Origin) {
    && DescribeAll(txs, es, at)
    && InOrder(at)
    && forall o: Origin :: o in at <==> o.t < |txs| && !Before(o, start) && Produces(txs[o.t], o.i)
  }

  lemma ConsInOrder(first: Origin, at: seq<Origin>)
    requires InOrder(at) && forall o <- at :: Before(first, o)
    ensures InOrder([first] + at)
  {
    hide Before;
    var from := [first] + at;
    forall j, k | 0 <= j < k < |from| ensures Before(from[j], from[k]) {
      assert from[k] == at[k - 1] && at[k - 1] in at;
    }
  }

  lemma ConsDescribeAll(txs: seq<BlockTx>, e: Entry, es: seq<Entry>, first: Origin, at: seq<Origin>)
    requires first.t < |txs| && Describes(e, first.t, txs[first.t], first.i) && DescribeAll(txs, es, at)
    ensures DescribeAll(txs, [e] + es, [first] + at)
  {
    hide Describes;
  }

  lemma ConsOrigin(txs: seq<BlockTx>, e: Entry, es: seq<Entry>, at: seq<Origin>, start: Origin)
    requires start.t < |txs| && Describes(e, start.t, txs[start.t], start.i)
    requires OriginsFrom(txs, es, at, Origin(start.t, start.i + 1))
    ensures OriginsFrom(txs, [e] + es, [start] + at, start)
  {
    DescribesProduced(e, start.t, txs[start.t], start.i);
    ConsDescribeAll(txs, e, es, start, at);
    hide Describes, Produces, DescribeAll;
    ConsInOrder(start, at);
    hide InOrder;
    forall o: Origin ensures o in [start] + at <==> o.t < |txs| && !Before(o, start) && Produces(txs[o.t], o.i) {
      assert o in [start] + at <==> o == start || o in at;
    }
  }

  lemma DescribesProduced(e: Entry, t: nat, tx: BlockTx, i: nat)
    requires Describes(e, t, tx, i)
    ensures Produces(tx, i)
  {
  }

  /** Passing over a message that produces nothing. */
  lemma SkipOrigin(txs: seq<BlockTx>, es: seq<Entry>, at: seq<Origin>, start: Origin)
    requires start.t < |txs| && !Produces(txs[start.t], start.i)
    requires OriginsFrom(txs, es, at, Origin(start.t, start.i + 1))
    ensures OriginsFrom(txs, es, at, start)
  {
    hide Produces, InOrder, DescribeAll;
    forall o: Origin ensures o in at <==> o.t < |txs| && !Before(o, start) && Produces(txs[o.t], o.i) {
      assert Before(o, Origin(start.t, start.i + 1)) <==> Before(o, start) || o == start;
    }
  }

  /** Passing over the rest of a transaction that produces nothing more. */
  lemma SkipTx(txs: seq<BlockTx>, es: seq<Entry>, at: seq<Origin>, start: Origin)
    requires start.t < |txs| && forall i: nat :: i >= start.i ==> !Produces(txs[start.t], i)
    requires OriginsFrom(txs, es, at, Origin(start.t + 1, 0))
    ensures OriginsFrom(txs, es, at, start)
  {
    hide Produces, InOrder, DescribeAll;
  }

  lemma DescribesFirst(height: int, txs: seq<BlockTx>, t: nat, i: nat, next: nat, cum: nat)
    requires t < |txs| && Indexable(txs[t]) && i < |txs[t].msgs| && cum == GasBelow(txs[t], i) % TWO_64
    ensures Produces(txs[t], i) <==> MsgResult(height, t, txs[t], i, next, cum).Some?
    ensures Produces(txs[t], i) ==>
      Describes(Entry(txs[t].msgs[i].hash, MsgResult(height, t, txs[t], i, next, cum).value), t, txs[t], i)
    ensures !Produces(txs[t], i) ==> cum == GasBelow(txs[t], i + 1) % TWO_64
  {
    hide ToInt32;
  }

  /** Following the loop from message i of transaction t on. */
  lemma {:induction false} MsgOrigins(height: int, txs: seq<BlockTx>, t: nat, i: nat, next: nat, cum: nat)
    returns (at: seq<Origin>)
    requires t < |txs| && Indexable(txs[t]) && i <= |txs[t].msgs| && cum == GasBelow(txs[t], i) % TWO_64
    ensures var es := MsgEntries(height, t, txs[t], i, next, cum);
      OriginsFrom(txs, es + TxEntries(height, txs, t + 1, next + |es|), at, Origin(t, i))
    decreases |txs| - t, |txs[t].msgs| - i
  {
    hide OriginsFrom, TxEntries, ToInt32;
    var tx := txs[t];
    var es := MsgEntries(height, t, tx, i, next, cum);
    var more := TxEntries(height, txs, t + 1, next + |es|);
    if i == |tx.msgs| {
      at := TxOrigins(height, txs, t + 1, next);
      assert es + more == more;
      SkipTx(txs, more, at, Origin(t, i));
    } else {
      DescribesFirst(height, txs, t, i, next, cum);
      hide Describes, GasBelow, Produces;
      match MsgResult(height, t, tx, i, next, cum)
      case None =>
        at := MsgOrigins(height, txs, t, i + 1, next, cum);
        SkipOrigin(txs, es + more, at, Origin(t, i));
      case Some(r) =>
        var e := Entry(tx.msgs[i].hash, r);
        var rest := MsgOrigins(height, txs, t, i + 1, next + 1, r.cumulativeGasUsed);
        at := [Origin(t, i)] + rest;
        assert es + more == [e] + (es[1..] + more);
        ConsOrigin(txs, e, es[1..] + more, rest, Origin(t, i));
    }
  }

  lemma {:induction false} TxOrigins(height: int, txs: seq<BlockTx>, t: nat, next: nat) returns (at: seq<Origin>)
    requires t <= |txs|
    ensures OriginsFrom(txs, TxEntries(height, txs, t, next), at, Origin(t, 0))
    decreases |txs| - t, if t < |txs| then |txs[t].msgs| + 1 else 0
  {
    if t == |txs| {
      at := [];
    } else {
      hide OriginsFrom, MsgEntries;
      if Indexable(txs[t]) {
        at := MsgOrigins(height, txs, t, 0, next, 0);
      } else {
        at := TxOrigins(height, txs, t + 1, next);
        SkipTx(txs, TxEntries(height, txs, t + 1, next), at, Origin(t, 0));
        assert [] + TxEntries(height, txs, t + 1, next) == TxEntries(height, txs, t + 1, next);
      }
    }
  }

  /** What indexing a block records: one entry for each message that produces one
      and no other, in block order, each describing its message, with gas summed
      up afresh within every transaction. */
  lemma EntriesDescribeBlock(b: Block) returns (at: seq<Origin>)
    ensures DescribeAll(b.txs, Entries(b), at) && InOrder(at)
    ensures forall o: Origin :: o in at <==> o.t < |b.txs| && Produces(b.txs[o.t], o.i)
  {
    at := TxOrigins(b.height, b.txs, 0, 0);
  }

  /** Blocks a chain can produce: a non-negative height, fewer than 2^31 messages. */
  ghost predicate ValidBlock(b: Block) { 0 <= b.height < TWO_63 && |Entries(b)| < TWO_31 }

  ghost predicate GoodEntry(e: Entry) { InRange(e.result.height, e.result.ethTxIndex) }

  lemma EntriesGood(b: Block)
    requires ValidBlock(b)
    ensures forall e <- Entries(b) :: GoodEntry(e) && e.result.height == b.height
  {
    forall e | e in Entries(b) ensures GoodEntry(e) && e.result.height == b.height {
      var k :| 0 <= k < |Entries(b)| && Entries(b)[k] == e;
      EntriesNumbered(b, k);
    }
  }

  // ---------- lookups ----------

  /** An all-zero result marshals to no bytes, which reads as not found. */
  predicate MarshalsEmpty(r: TxResult) { r == TxResult(0, 0, 0, 0, 0, false, 0) }

  function GetByTxHash(db: Db, hash: TxHash): Option<TxResult> {
    var key := TxHashKey(hash);
    if key in db && db[key].Stored? && !MarshalsEmpty(db[key].result) then Some(db[key].result) else None
  }

  function GetByBlockAndIndex(db: Db, height: int, txIndex: int): Option<TxResult> {
    var key := TxIndexKey(height, txIndex);
    if key in db && db[key].HashBytes? then GetByTxHash(db, db[key].hash) else None
  }

  /** The two kinds of keys: their prefixes and lengths, and no key of both kinds. */
  lemma KeysApart(hash: Bytes, height: int, txIndex: int, other: Bytes)
    ensures TxHashKey(hash) != TxIndexKey(height, txIndex)
    ensures TxHashKey(hash) == TxHashKey(other) <==> hash == other
    ensures |TxIndexKey(height, txIndex)| == 17 && TxIndexKey(height, txIndex)[0] == 2
    ensures |TxHashKey(hash)| == 1 + |hash| && TxHashKey(hash)[0] == 1 && TxHashKey(hash)[1..] == hash
  {
    assert TxHashKey(hash)[1..] == hash && TxHashKey(other)[1..] == other;
    assert TxHashKey(hash)[0] == KEY_PREFIX_TX_HASH;
    assert TxIndexKey(height, txIndex)[0] == KEY_PREFIX_TX_INDEX;
  }

  /** The store that results from writing a log of entries into an empty one. */
  ghost function Replay(log: seq<Entry>): Db { PutAll(map[], log) }

  lemma {:induction false} PutAllAppend(db: Db, xs: seq<Entry>, ys: seq<Entry>)
    ensures PutAll(db, xs + ys) == PutAll(PutAll(db, xs), ys)
    decreases xs
  {
    if xs == [] {
      assert xs + ys == ys;
    } else {
      assert (xs + ys)[1..] == xs[1..] + ys;
      PutAllAppend(Put(db, xs[0]), xs[1..], ys);
    }
  }

  /** The last entry written for a (height, index) pair, and for a hash. */
  ghost function LastAt(log: seq<Entry>, height: int, txIndex: int): Option<Entry> {
    if log == [] then None
    else
      var e := log[|log| - 1];
      if e.result.height == height && e.result.ethTxIndex == txIndex then Some(e)
      else LastAt(log[..|log| - 1], height, txIndex)
  }

  ghost function LastWith(log: seq<Entry>, hash: TxHash): Option<Entry> {
    if log == [] then None
    else if log[|log| - 1].hash == hash then Some(log[|log| - 1])
    else LastWith(log[..|log| - 1], hash)
  }

  lemma ReplaySnoc(log: seq<Entry>)
    requires log != []
    ensures Replay(log) == Put(Replay(log[..|log| - 1]), log[|log| - 1])
  {
    var e := log[|log| - 1];
    PutAllAppend(map[], log[..|log| - 1], [e]);
    assert log == log[..|log| - 1] + [e];
    assert [e][1..] == [];
    assert PutAll(Replay(log[..|log| - 1]), [e]) == Put(Replay(log[..|log| - 1]), e);
  }

  /** What the store holds under each key after any sequence of writes. */
  lemma {:induction false} ReplayHolds(log: seq<Entry>, height: int, txIndex: int, hash: TxHash)
    requires InRange(height, txIndex) && forall e <- log :: GoodEntry(e)
    ensures var key := TxIndexKey(height, txIndex);
      match LastAt(log, height, txIndex)
      case None => key !in Replay(log)
      case Some(e) => key in Replay(log) && Replay(log)[key] == HashBytes(e.hash)
    ensures var key := TxHashKey(hash);
      match LastWith(log, hash)
      case None => key !in Replay(log)
      case Some(e) => key in Replay(log) && Replay(log)[key] == Stored(e.result)
    decreases log
  {
    hide TxIndexKey, TxHashKey, InRange;
    if log != [] {
      var e := log[|log| - 1];
      var init := log[..|log| - 1];
      ReplaySnoc(log);
      assert e in log && forall x <- init :: x in log;
      ReplayHolds(init, height, txIndex, hash);
      KeysApart(e.hash, height, txIndex, hash);
      KeysApart(hash, e.result.height, e.result.ethTxIndex, e.hash);
      KeyOrder(height, txIndex, e.result.height, e.result.ethTxIndex);
    }
  }

  lemma {:induction false} LastIsThere(log: seq<Entry>, height: int, txIndex: int, hash: TxHash)
    ensures LastAt(log, height, txIndex).Some? <==>
      exists e :: e in log && e.result.height == height && e.result.ethTxIndex == txIndex
    ensures var e := LastAt(log, height, txIndex);
      e.Some? ==> e.value in log && e.value.result.height == height && e.value.result.ethTxIndex == txIndex
    ensures LastWith(log, hash).Some? <==> exists e :: e in log && e.hash == hash
    ensures LastWith(log, hash).Some? ==> LastWith(log, hash).value in log && LastWith(log, hash).value.hash == hash
    decreases log
  {
    if log != [] {
      var init := log[..|log| - 1];
      assert log == init + [log[|log| - 1]];
      LastIsThere(init, height, txIndex, hash);
    }
  }

  /** After any writes at all, every (height, index) entry points to a stored
      result: a lookup by block and index returns the result last written for the
      hash last written under that pair, and nothing for pairs never written. */
  lemma LookupFollowsLastWrite(log: seq<Entry>, height: int, txIndex: int)
    requires InRange(height, txIndex) && forall e <- log :: GoodEntry(e)
    ensures var got := GetByBlockAndIndex(Replay(log), height, txIndex);
      match LastAt(log, height, txIndex)
      case None => got == None
      case Some(e) =>
        && LastWith(log, e.hash).Some?
        && got == (var r := LastWith(log, e.hash).value.result;
                   if r == TxResult(0, 0, 0, 0, 0, false, 0) then None else Some(r))
  {
    hide TxIndexKey, TxHashKey, InRange, LastAt, LastWith;
    var some := LastAt(log, height, txIndex);
    if some.Some? {
      LastIsThere(log, height, txIndex, some.value.hash);
      ReplayHolds(log, height, txIndex, some.value.hash);
    } else {
      ReplayHolds(log, height, txIndex, seq(32, _ => 0));
    }
  }

  /** A lookup by hash returns the result last written for it, except that an
      all-zero one reads as missing. */
  lemma LookupByHash(log: seq<Entry>, hash: TxHash)
    requires forall e <- log :: GoodEntry(e)
    ensures var got := GetByTxHash(Replay(log), hash); var last := LastWith(log, hash);
      got == if last.None? || last.value.result == TxResult(0, 0, 0, 0, 0, false, 0) then None
             else Some(last.value.result)
  {
    hide TxIndexKey, TxHashKey, LastAt, LastWith, Replay;
    ReplayHolds(log, 0, 0, hash);
  }

  // ---------- runs of IndexBlock ----------

  function LogOf(run: seq<Block>): seq<Entry>
    decreases run
  {
    if run == [] then [] else LogOf(run[..|run| - 1]) + Entries(run[|run| - 1])
  }

  /** Blocks of one chain: a height determines the block. */
  ghost predicate OneBlockPerHeight(run: seq<Block>) {
    && (forall b <- run :: ValidBlock(b) && b.height > 0)
    && (forall b <- run, c <- run :: b.height == c.height ==> b == c)
  }

  /** And a transaction hash occurs in one place only. */
  ghost predicate OneChain(run: seq<Block>) {
    OneBlockPerHeight(run) && forall e <- LogOf(run), f <- LogOf(run) :: e.hash == f.hash ==> e == f
  }

  lemma {:induction false} InLog(run: seq<Block>, b: Block, k: nat)
    requires b in run && k < |Entries(b)|
    ensures Entries(b)[k] in LogOf(run)
    decreases run
  {
    if b != run[|run| - 1] {
      assert b in run[..|run| - 1];
      InLog(run[..|run| - 1], b, k);
    }
  }

  lemma {:induction false} FromLog(run: seq<Block>, e: Entry) returns (b: Block)
    requires e in LogOf(run)
    ensures b in run && e in Entries(b)
    decreases run
  {
    if e in Entries(run[|run| - 1]) {
      b := run[|run| - 1];
    } else {
      b := FromLog(run[..|run| - 1], e);
    }
  }

  lemma LogGood(run: seq<Block>)
    requires forall b <- run :: ValidBlock(b)
    ensures forall e <- LogOf(run) :: GoodEntry(e)
  {
    forall e | e in LogOf(run) ensures GoodEntry(e) {
      var b := FromLog(run, e);
      EntriesGood(b);
    }
  }

  /** With one chain indexed, in any order and with repetitions, the pair (h, k)
      finds the k-th indexed message of block h, numbered and dated accordingly,
      for k below their number, and nothing above. */
  lemma LookupsAgree(run: seq<Block>, b: Block, k: nat)
    requires OneChain(run) && b in run && k < TWO_31
    ensures var got := GetByBlockAndIndex(Replay(LogOf(run)), b.height, k);
      if k < |Entries(b)| then
        got == Some(Entries(b)[k].result) && got.value.height == b.height && got.value.ethTxIndex == k
      else got == None
  {
    hide Entries, LogOf, GetByBlockAndIndex, MarshalsEmpty;
    var log := LogOf(run);
    LogGood(run);
    LookupFollowsLastWrite(log, b.height, k);
    if k < |Entries(b)| {
      InLog(run, b, k);
      EntriesNumbered(b, k);
      var e := Entries(b)[k];
      LastIsThere(log, b.height, k, e.hash);
      var f := LastAt(log, b.height, k).value;
      OnlyEntryAt(run, b, k, f);
      LastIsThere(log, b.height, k, f.hash);
      NotEmpty(e.result);
    } else if LastAt(log, b.height, k).Some? {
      LastIsThere(log, b.height, k, seq(32, _ => 0));
      var f := LastAt(log, b.height, k).value;
      OnlyEntryAt(run, b, k, f);
    }
  }

  lemma NotEmpty(r: TxResult)
    requires r.height > 0
    ensures !MarshalsEmpty(r)
  {
  }

  lemma OnlyEntryAt(run: seq<Block>, b: Block, k: nat, f: Entry)
    requires OneBlockPerHeight(run) && b in run && f in LogOf(run)
    requires f.result.height == b.height && f.result.ethTxIndex == k
    ensures k < |Entries(b)| && f == Entries(b)[k]
  {
    hide Entries, LogOf;
    var c := FromLog(run, f);
    EntriesGood(c);
    var j :| 0 <= j < |Entries(c)| && Entries(c)[j] == f;
    EntriesNumbered(c, j);
  }

  // ---------- repeated hashes ----------

  lemma {:induction false} LogAppend(xs: seq<Block>, ys: seq<Block>)
    ensures LogOf(xs + ys) == LogOf(xs) + LogOf(ys)
    decreases ys
  {
    hide Entries;
    if ys == [] {
      assert xs + ys == xs;
    } else {
      var init := ys[..|ys| - 1];
      assert (xs + ys)[..|xs + ys| - 1] == xs + init;
      LogAppend(xs, init);
    }
  }

  lemma {:induction false} LastWithAppend(xs: seq<Entry>, ys: seq<Entry>, hash: TxHash)
    ensures LastWith(xs + ys, hash) == if LastWith(ys, hash).Some? then LastWith(ys, hash) else LastWith(xs, hash)
    decreases ys
  {
    if ys == [] {
      assert xs + ys == xs;
    } else {
      assert (xs + ys)[..|xs + ys| - 1] == xs + ys[..|ys| - 1];
      LastWithAppend(xs, ys[..|ys| - 1], hash);
    }
  }

  /** The entry last written for the hash of the k-th is at the hash's last place. */
  lemma {:induction false} LastPlace(es: seq<Entry>, k: nat) returns (j: nat)
    requires k < |es|
    ensures k <= j < |es| && es[j].hash == es[k].hash && LastWith(es, es[k].hash) == Some(es[j])
    ensures forall m :: j < m < |es| ==> es[m].hash != es[k].hash
    decreases es
  {
    j := |es| - 1;
    if es[j].hash != es[k].hash {
      var init := es[..|es| - 1];
      j := LastPlace(init, k);
    }
  }

  lemma LogSnoc(run: seq<Block>, b: Block)
    ensures LogOf(run + [b]) == LogOf(run) + Entries(b)
  {
    hide Entries;
    assert (run + [b])[..|run|] == run;
  }

  /** The log of a run around its i-th block. */
  lemma LogAround(run: seq<Block>, i: nat)
    requires i < |run|
    ensures LogOf(run) == LogOf(run[..i]) + Entries(run[i]) + LogOf(run[i + 1..])
  {
    hide Entries, LogOf;
    CutAt(run, i);
    LogAppend(run[..i] + [run[i]], run[i + 1..]);
    LogSnoc(run[..i], run[i]);
  }

  /** Without unique hashes, a lookup of the k-th indexed message of a block gives
      that message's own result if and only if its hash is carried neither by a
      later entry of the block nor by any block indexed after the block was
      indexed last. */
  lemma OwnResultIff(run: seq<Block>, i: nat, k: nat)
    requires OneBlockPerHeight(run) && i < |run| && run[i] !in run[i + 1..] && k < |Entries(run[i])|
    ensures var es := Entries(run[i]);
      GetByBlockAndIndex(Replay(LogOf(run)), run[i].height, k) == Some(es[k].result) <==>
        (forall j :: k < j < |es| ==> es[j].hash != es[k].hash) &&
        (forall c <- run[i + 1..] :: forall f <- Entries(c) :: f.hash != es[k].hash)
  {
    hide Entries, LogOf, LastAt, LastWith, GetByBlockAndIndex, Replay, MarshalsEmpty;
    var b, rest := run[i], run[i + 1..];
    var es := Entries(b);
    var e := es[k];
    LookupIsLast(run, b, k);
    LogAround(run, i);
    LastWithAppend(LogOf(run[..i]) + es, LogOf(rest), e.hash);
    LastWithAppend(LogOf(run[..i]), es, e.hash);
    LastIsThere(LogOf(rest), b.height, k, e.hash);
    if LastWith(LogOf(rest), e.hash).Some? {
      var f := LastWith(LogOf(rest), e.hash).value;
      var c := FromLog(rest, f);
      assert c in run;
      EntriesGood(c);
      EntriesNumbered(b, k);
      assert f.result.height != e.result.height;
    } else {
      LaterCarriesNot(rest, e.hash);
      var j := LastPlace(es, k);
      EntriesNumbered(b, k);
      EntriesNumbered(b, j);
    }
  }

  lemma LaterCarriesNot(run: seq<Block>, hash: TxHash)
    requires LastWith(LogOf(run), hash).None?
    ensures forall c <- run :: forall f <- Entries(c) :: f.hash != hash
  {
    hide Entries, LogOf, LastWith;
    LastIsThere(LogOf(run), 0, 0, hash);
    forall c, f | c in run && f in Entries(c) ensures f.hash != hash {
      var j :| 0 <= j < |Entries(c)| && Entries(c)[j] == f;
      InLog(run, c, j);
    }
  }

  /** A lookup answers with the result last stored for the hash of that message. */
  lemma LookupIsLast(run: seq<Block>, b: Block, k: nat)
    requires OneBlockPerHeight(run) && b in run && k < |Entries(b)|
    ensures var last := LastWith(LogOf(run), Entries(b)[k].hash);
      last.Some? && GetByBlockAndIndex(Replay(LogOf(run)), b.height, k) == Some(last.value.result)
  {
    hide Entries, LogOf, LastAt, LastWith, GetByBlockAndIndex, MarshalsEmpty, Replay;
    var log, e := LogOf(run), Entries(b)[k];
    LogGood(run);
    InLog(run, b, k);
    EntriesNumbered(b, k);
    LastIsThere(log, b.height, k, e.hash);
    OnlyEntryAt(run, b, k, LastAt(log, b.height, k).value);
    LookupFollowsLastWrite(log, b.height, k);
    var last := LastWith(log, e.hash).value;
    var c := FromLog(run, last);
    EntriesGood(c);
    NotEmpty(last.result);
  }

  lemma {:induction false} PutAllMerge(db: Db, m: Db, es: seq<Entry>)
    ensures PutAll(db + m, es) == db + PutAll(m, es)
    decreases es
  {
    if es != [] {
      assert Put(db + m, es[0]) == db + Put(m, es[0]);
      PutAllMerge(db, Put(m, es[0]), es[1..]);
    }
  }

  /** Writing a log again is overlaying what it writes. */
  lemma PutAllOverlay(db: Db, es: seq<Entry>)
    ensures PutAll(db, es) == db + Replay(es)
  {
    PutAllMerge(db, map[], es);
    assert db + map[] == db;
  }

  /** Every key a log leaves is the hash key or the index key of one of its entries. */
  lemma {:induction false} KeyFromLog(log: seq<Entry>, key: Bytes) returns (e: Entry)
    requires key in Replay(log)
    ensures e in log && (key == TxHashKey(e.hash) || key == TxIndexKey(e.result.height, e.result.ethTxIndex))
    decreases log
  {
    hide TxIndexKey, TxHashKey;
    e := log[|log| - 1];
    ReplaySnoc(log);
    if key != TxHashKey(e.hash) && key != TxIndexKey(e.result.height, e.result.ethTxIndex) {
      e := KeyFromLog(log[..|log| - 1], key);
    }
  }

  /** No block of the run carries a hash of these entries. */
  ghost predicate CarriesNone(run: seq<Block>, es: seq<Entry>) {
    forall c <- run :: forall f <- Entries(c) :: forall e <- es :: f.hash != e.hash
  }

  /** Where the last entry for a hash of run[i] is: in a later block if one carries
      it, else in the block itself. */
  lemma LastForHash(run: seq<Block>, i: nat, k: nat)
    requires i < |run| && k < |Entries(run[i])|
    ensures var h := Entries(run[i])[k].hash; var rest := LastWith(LogOf(run[i + 1..]), h);
      LastWith(LogOf(run), h) == if rest.Some? then rest else LastWith(Entries(run[i]), h)
    ensures LastWith(Entries(run[i]), Entries(run[i])[k].hash).Some?
  {
    hide Entries, LogOf, LastWith;
    var es := Entries(run[i]);
    var h := es[k].hash;
    LogAround(run, i);
    LastWithAppend(LogOf(run[..i]) + es, LogOf(run[i + 1..]), h);
    LastWithAppend(LogOf(run[..i]), es, h);
    LastIsThere(es, 0, 0, h);
  }

  /** Under the hash of an entry of run[i], the store holds what the block alone
      would leave there, exactly if no later block carries that hash. */
  lemma HashKeyHeld(run: seq<Block>, i: nat, k: nat)
    requires OneBlockPerHeight(run) && i < |run| && run[i] !in run[i + 1..] && k < |Entries(run[i])|
    ensures var key := TxHashKey(Entries(run[i])[k].hash); var db := Replay(LogOf(run));
      && key in Replay(Entries(run[i])) && key in db
      && (db[key] == Replay(Entries(run[i]))[key] <==> CarriesNone(run[i + 1..], [Entries(run[i])[k]]))
  {
    hide Entries, LogOf, LastWith, LastAt, Replay, TxHashKey, TxIndexKey;
    var b, rest := run[i], run[i + 1..];
    var es := Entries(b);
    var e := es[k];
    LogGood(run);
    EntriesGood(b);
    LastForHash(run, i, k);
    ReplayHolds(LogOf(run), b.height, 0, e.hash);
    ReplayHolds(es, b.height, 0, e.hash);
    LastIsThere(es, b.height, 0, e.hash);
    LastIsThere(LogOf(rest), b.height, 0, e.hash);
    if LastWith(LogOf(rest), e.hash).Some? {
      var f := LastWith(LogOf(rest), e.hash).value;
      var c := FromLog(rest, f);
      EntriesGood(c);
      assert c in run && f.result.height != b.height;
      assert !CarriesNone(rest, [e]);
    } else {
      LaterCarriesNot(rest, e.hash);
    }
  }

  lemma IndexKeyHeld(run: seq<Block>, i: nat, k: nat)
    requires OneBlockPerHeight(run) && i < |run| && k < |Entries(run[i])|
    ensures var e := Entries(run[i])[k]; var key := TxIndexKey(e.result.height, e.result.ethTxIndex);
      var db := Replay(LogOf(run));
      key in db && key in Replay(Entries(run[i])) && db[key] == Replay(Entries(run[i]))[key]
  {
    hide Entries, LogOf, LastWith, LastAt, Replay, TxHashKey, TxIndexKey;
    var b := run[i];
    var es := Entries(b);
    var e := es[k];
    LogGood(run);
    EntriesGood(b);
    EntriesNumbered(b, k);
    InLog(run, b, k);
    ReplayHolds(LogOf(run), b.height, k, e.hash);
    ReplayHolds(es, b.height, k, e.hash);
    LastIsThere(LogOf(run), b.height, k, e.hash);
    LastIsThere(es, b.height, k, e.hash);
    OnlyEntryAt(run, b, k, LastAt(LogOf(run), b.height, k).value);
    var f := LastAt(es, b.height, k).value;
    var j :| 0 <= j < |es| && es[j] == f;
    EntriesNumbered(b, j);
  }

  /** Indexing a block again changes nothing if and only if no block indexed after
      it was indexed last carries one of its hashes. */
  lemma ReindexIff(run: seq<Block>, i: nat)
    requires OneBlockPerHeight(run) && i < |run| && run[i] !in run[i + 1..]
    ensures PutAll(Replay(LogOf(run)), Entries(run[i])) == Replay(LogOf(run)) <==>
      CarriesNone(run[i + 1..], Entries(run[i]))
  {
    hide Entries, LogOf, LastWith, LastAt, Replay, TxHashKey, TxIndexKey, PutAll;
    var db, es := Replay(LogOf(run)), Entries(run[i]);
    PutAllOverlay(db, es);
    if CarriesNone(run[i + 1..], es) {
      forall key | key in Replay(es) ensures key in db && db[key] == Replay(es)[key] {
        var e := KeyFromLog(es, key);
        var k :| 0 <= k < |es| && es[k] == e;
        HashKeyHeld(run, i, k);
        IndexKeyHeld(run, i, k);
      }
      assert db + Replay(es) == db;
    } else {
      var c, f, e :| c in run[i + 1..] && f in Entries(c) && e in es && f.hash == e.hash;
      var k :| 0 <= k < |es| && es[k] == e;
      HashKeyHeld(run, i, k);
      assert !CarriesNone(run[i + 1..], [e]);
      var key := TxHashKey(e.hash);
      assert (db + Replay(es))[key] == Replay(es)[key];
    }
  }

  lemma {:induction false} LastPlaceOf(run: seq<Block>, b: Block) returns (i: nat)
    requires b in run
    ensures i < |run| && run[i] == b && b !in run[i + 1..]
    decreases run
  {
    i := |run| - 1;
    if run[i] != b {
      var init := run[..i];
      i := LastPlaceOf(init, b);
      assert run[i + 1..] == init[i + 1..] + [run[|run| - 1]];
    }
  }

  /** With unique hashes, indexing a block of the chain again changes nothing. */
  lemma ReindexChangesNothing(run: seq<Block>, b: Block)
    requires OneChain(run) && b in run
    ensures PutAll(Replay(LogOf(run)), Entries(b)) == Replay(LogOf(run))
  {
    hide Entries, LogOf, Replay, PutAll;
    var i := LastPlaceOf(run, b);
    forall c, f, e | c in run[i + 1..] && f in Entries(c) && e in Entries(b) ensures f.hash != e.hash {
      EntriesGood(b);
      EntriesGood(c);
      EntryInLog(run, b, e);
      EntryInLog(run, c, f);
    }
    ReindexIff(run, i);
  }

  lemma EntryInLog(run: seq<Block>, b: Block, e: Entry)
    requires b in run && e in Entries(b)
    ensures e in LogOf(run)
  {
    hide Entries, LogOf;
    var k :| 0 <= k < |Entries(b)| && Entries(b)[k] == e;
    InLog(run, b, k);
  }

  lemma OneMessage(b: Block, e: Entry)
    requires |b.txs| == 1 && Indexable(b.txs[0]) && |b.txs[0].msgs| == 1
    requires MsgResult(b.height, 0, b.txs[0], 0, 0, 0) == Some(e.result) && e.hash == b.txs[0].msgs[0].hash
    ensures Entries(b) == [e]
  {
    var es := MsgEntries(b.height, 0, b.txs[0], 0, 0, 0);
    assert MsgEntries(b.height, 0, b.txs[0], 1, 1, e.result.cumulativeGasUsed) == [];
    assert es == [e];
    assert TxEntries(b.height, b.txs, 1, |es|) == [];
    assert TxEntries(b.height, b.txs, 0, 0) == es + TxEntries(b.height, b.txs, 1, 0 + |es|);
  }

  /** The same transaction failing in block 1 for block gas and included again in
      block 2: looking up (1, 0) then answers with block 2's result. */
  lemma RepeatedHashAnswersElsewhere(hash: TxHash, failed: BlockTx, run: seq<Block>)
    requires failed == BlockTx(true, true, true, Some(map[0 := ParsedTx(7, false)]), false, [EthMsg(hash, 9)])
    requires run == [Block(1, [failed]), Block(2, [failed.(codeOk := true)])]
    ensures var got := GetByBlockAndIndex(Replay(LogOf(run)), 1, 0);
      got.Some? && got.value.height == 2
  {
    hide Entries, MsgEntries, TxEntries, PutAll, Put, GetByBlockAndIndex;
    var e := Entry(hash, TxResult(1, 0, 0, 0, 9, true, 9));
    var f := Entry(hash, TxResult(2, 0, 0, 0, 7, false, 7));
    OneMessage(run[0], e);
    OneMessage(run[1], f);
    var first := run[..1];
    assert first == [run[0]] && first[..0] == [];
    assert LogOf(first) == LogOf([]) + Entries(run[0]) == [e];
    var log := LogOf(run);
    assert log == LogOf(first) + Entries(run[1]) == [e, f];
    assert log[..1] == [e];
    assert LastAt(log[..1], 1, 0) == Some(e);
    LookupFollowsLastWrite(log, 1, 0);
  }
}
