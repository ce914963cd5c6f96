/** The indexer object over its store, and the command that indexes historical
    blocks backward from the first or forward from the last indexed block. */
module Backfill {
  import opened Common
  import opened Wire
  import opened TxIndexKeys
  import opened KVIndexer

  // ---------- first and last record ----------

  function Lowest(log: seq<Entry>): int {
    if log == [] then -1
    else
      var rest := Lowest(log[1..]);
      if rest == -1 || log[0].result.height < rest then log[0].result.height else rest
  }

  function Highest(log: seq<Entry>): int {
    if log == [] then -1
    else
      var rest := Highest(log[1..]);
      if log[0].result.height > rest then log[0].result.height else rest
  }

  ghost predicate AllGood(log: seq<Entry>) { forall e <- log :: GoodEntry(e) }

  lemma {:induction false} Extremes(log: seq<Entry>)
    requires AllGood(log)
    ensures Lowest(log) == -1 <==> log == []
    ensures Highest(log) == -1 <==> log == []
    ensures log != [] ==> exists e :: e in log && e.result.height == Lowest(log)
    ensures log != [] ==> exists e :: e in log && e.result.height == Highest(log)
    ensures forall e <- log :: Lowest(log) <= e.result.height <= Highest(log)
  {
    if log != [] {
      var tail := log[1..];
      assert log[0] in log && forall e <- tail :: e in log;
      Extremes(tail);
      forall e | e in log ensures Lowest(log) <= e.result.height <= Highest(log) {
        if e != log[0] { assert e in tail; }
      }
    }
  }

  // ---------- the object ----------

  lemma {:induction false} IndexKeysFromLog(log: seq<Entry>, key: Bytes)
    requires AllGood(log)
    ensures key in Replay(log) && key != [] && key[0] == KEY_PREFIX_TX_INDEX <==>
      exists e :: e in log && key == TxIndexKey(e.result.height, e.result.ethTxIndex)
    decreases log
  {
    hide TxIndexKey, TxHashKey, GoodEntry;
    if log != [] {
      var init, e := log[..|log| - 1], log[|log| - 1];
      assert log == init + [e];
      assert forall x <- init :: x in log;
      ReplaySnoc(log);
      IndexKeysFromLog(init, key);
      KeysApart(e.hash, e.result.height, e.result.ethTxIndex, e.hash);
      var own := TxIndexKey(e.result.height, e.result.ethTxIndex);
      assert key in Replay(log) <==> key in Replay(init) || key == own || key == TxHashKey(e.hash);
      forall x | x in log && key == TxIndexKey(x.result.height, x.result.ethTxIndex) ensures x in init || key == own {
      }
      assert e in log;
    }
  }

  lemma {:induction false} LexTotal(a: Bytes, b: Bytes)
    ensures LexLess(a, b) || a == b || LexLess(b, a)
    ensures LexLess(a, b) ==> !LexLess(b, a) && a != b
  {
    if a != [] && b != [] {
      LexTotal(a[1..], b[1..]);
      assert a == [a[0]] + a[1..] && b == [b[0]] + b[1..];
    }
  }

  lemma {:induction false} LexTransitive(a: Bytes, b: Bytes, c: Bytes)
    requires LexLess(a, b) && LexLess(b, c)
    ensures LexLess(a, c)
  {
    if a != [] && a[0] == b[0] == c[0] {
      LexTransitive(a[1..], b[1..], c[1..]);
    }
  }

  lemma {:induction false} LexEnds(keys: set<Bytes>) returns (lo: Bytes, hi: Bytes)
    requires keys != {}
    ensures lo in keys && forall k <- keys :: !LexLess(k, lo)
    ensures hi in keys && forall k <- keys :: !LexLess(hi, k)
    decreases |keys|
  {
    var k :| k in keys;
    var rest := keys - {k};
    lo, hi := k, k;
    LexTotal(k, k);
    if rest != {} {
      var l, h := LexEnds(rest);
      LexTotal(k, l);
      LexTotal(h, k);
      if LexLess(l, k) { lo := l; }
      if LexLess(k, h) { hi := h; }
      forall x | x in keys ensures !LexLess(x, lo) && !LexLess(hi, x) {
        if x != k {
          assert x in rest;
          LexTotal(x, l);
          LexTotal(h, x);
          if LexLess(x, lo) && lo == k { LexTotal(k, l); if LexLess(k, l) { LexTransitive(x, k, l); } }
          if LexLess(hi, x) && hi == k { LexTotal(k, h); if LexLess(h, k) { LexTransitive(h, k, x); } }
        }
      }
    }
  }

  class TxIndexer {
    var db: Db
    ghost var log: seq<Entry>

    /** The store is what the writes so far, in order, made of an empty one. */
    ghost predicate Valid()
      reads this
    {
      db == Replay(log) && AllGood(log)
    }

    constructor ()
      ensures Valid() && log == []
    {
      db, log := map[], [];
    }

    /** The loop over the messages of one Ethereum transaction. */
    static method IndexMsgs(
      height: int, txIndex: nat, tx: BlockTx, batch0: Db, ethTxIndex0: int, ghost done0: seq<Entry>)
      returns (batch: Db, ethTxIndex: int)
      requires tx.parsed.Some? && batch0 == PutAll(map[], done0) && ethTxIndex0 == ToInt32(|done0|)
      ensures var done := done0 + MsgEntries(height, txIndex, tx, 0, |done0|, 0);
        batch == PutAll(map[], done) && ethTxIndex == ToInt32(|done|)
    {
      hide PutAll, ToInt32, Put;
      batch, ethTxIndex := batch0, ethTxIndex0;
      ghost var done := done0;
      ghost var all := done0 + MsgEntries(height, txIndex, tx, 0, |done0|, 0);
      var cumulativeGasUsed: nat, msgIndex: nat := 0, 0;
      while msgIndex < |tx.msgs|
        invariant msgIndex <= |tx.msgs|
        invariant all == done + MsgEntries(height, txIndex, tx, msgIndex, |done|, cumulativeGasUsed)
        invariant batch == PutAll(map[], done) && ethTxIndex == ToInt32(|done|)
      {
        if !tx.codeOk || msgIndex in tx.parsed.value {
          var gasUsed := if tx.codeOk then tx.parsed.value[msgIndex].gasUsed else tx.msgs[msgIndex].gas;
          var failed := if tx.codeOk then tx.parsed.value[msgIndex].failed else true;
          cumulativeGasUsed := (cumulativeGasUsed + gasUsed) % TWO_64;
          var e := Entry(tx.msgs[msgIndex].hash,
                         TxResult(height, txIndex % TWO_32, msgIndex % TWO_32, ethTxIndex, gasUsed, failed,
                                  cumulativeGasUsed));
          NextIndex(|done|);
          ethTxIndex := if ethTxIndex == TWO_31 - 1 then -0x8000_0000 else ethTxIndex + 1;
          BatchPut(done, e);
          batch := Put(batch, e);
          done := done + [e];
        }
        msgIndex := msgIndex + 1;
      }
      assert all == done;
    }

    /** Indexes a block through one batch; when writing fails nothing is stored. */
    method IndexBlock(block: Block, writeOk: bool) returns (ok: bool)
      requires Valid() && ValidBlock(block)
      modifies this
      ensures Valid() && ok == writeOk
      ensures log == if ok then old(log) + Entries(block) else old(log)
      ensures db == if ok then PutAll(old(db), Entries(block)) else old(db)
    {
      hide PutAll, ToInt32, Put, AllGood, MsgEntries;
      var height := block.height;
      var batch: Db := map[];
      var ethTxIndex := 0;
      ghost var done: seq<Entry> := [];
      BatchStart();
      var txIndex := 0;
      while txIndex < |block.txs|
        invariant 0 <= txIndex <= |block.txs|
        invariant db == old(db) && log == old(log)
        invariant Entries(block) == done + TxEntries(height, block.txs, txIndex, |done|)
        invariant batch == PutAll(map[], done) && ethTxIndex == ToInt32(|done|)
      {
        var tx := block.txs[txIndex];
        if Indexable(tx) {
          batch, ethTxIndex := IndexMsgs(height, txIndex, tx, batch, ethTxIndex, done);
          done := done + MsgEntries(height, txIndex, tx, 0, |done|, 0);
        }
        txIndex := txIndex + 1;
      }
      assert Entries(block) == done;
      if !writeOk {
        return false;
      }
      PutAllMerge(db, map[], done);
      assert db + map[] == db;
      PutAllAppend(map[], log, done);
      StillGood(log, block);
      db := db + batch;
      log := log + done;
      ok := true;
    }

    /** The first indexed height, by the least key of the index prefix; -1 if none. */
    method LoadFirstBlock() returns (r: BlockNumber)
      requires Valid()
      ensures r == BlockNumber(Lowest(log))
    {
      hide LexLess, Lowest, GoodEntry, Replay, TxIndexKey, ParseBlockNumber, InIndexRange, IndexKeys;
      Extremes(log);
      var keys := set k | k in db && InIndexRange(k);
      RangeIsPrefix(log, keys);
      if keys == {} {
        NoKeysNoLog(log, keys);
        return BlockNumber(-1);
      }
      ghost var lo, hi := LexEnds(keys);
      var key :| key in keys && forall k <- keys :: !LexLess(k, key);
      LeastKeyIsLowest(log, keys, key);
      r := ParseBlockNumber(key);
    }

    method LoadLastBlock() returns (r: BlockNumber)
      requires Valid()
      ensures r == BlockNumber(Highest(log))
    {
      hide LexLess, Highest, GoodEntry, Replay, TxIndexKey, ParseBlockNumber, InIndexRange, IndexKeys;
      Extremes(log);
      var keys := set k | k in db && InIndexRange(k);
      RangeIsPrefix(log, keys);
      if keys == {} {
        NoKeysNoLog(log, keys);
        return BlockNumber(-1);
      }
      ghost var lo, hi := LexEnds(keys);
      var key :| key in keys && forall k <- keys :: !LexLess(key, k);
      GreatestKeyIsHighest(log, keys, key);
      r := ParseBlockNumber(key);
    }
  }

  lemma BatchStart()
    ensures PutAll(map[], []) == map[] && ToInt32(0) == 0
  {
  }

  lemma BatchPut(done: seq<Entry>, e: Entry)
    ensures PutAll(map[], done + [e]) == Put(PutAll(map[], done), e)
  {
    ReplaySnoc(done + [e]);
    assert (done + [e])[..|done|] == done;
  }

  lemma NextIndex(n: nat)
    ensures ToInt32(n + 1) == if ToInt32(n) == TWO_31 - 1 then -0x8000_0000 else ToInt32(n) + 1
  {
  }

  lemma StillGood(log: seq<Entry>, b: Block)
    requires AllGood(log) && ValidBlock(b)
    ensures AllGood(log + Entries(b))
  {
    EntriesGood(b);
  }

  /** The range of the iterators: from the index prefix up to the next one. */
  predicate InIndexRange(key: Bytes) {
    !LexLess(key, [KEY_PREFIX_TX_INDEX]) && LexLess(key, [KEY_PREFIX_TX_INDEX + 1])
  }

  lemma RangeIsPrefix(log: seq<Entry>, keys: set<Bytes>)
    requires keys == set k | k in Replay(log) && InIndexRange(k)
    ensures keys == IndexKeys(log)
  {
    forall k: Bytes ensures InIndexRange(k) <==> k != [] && k[0] == KEY_PREFIX_TX_INDEX {
      IteratorRange(k);
    }
  }

  ghost function IndexKeys(log: seq<Entry>): set<Bytes> {
    set k | k in Replay(log) && k != [] && k[0] == KEY_PREFIX_TX_INDEX
  }

  lemma NoKeysNoLog(log: seq<Entry>, keys: set<Bytes>)
    requires AllGood(log) && keys == IndexKeys(log)
    ensures log != [] ==> keys != {}
  {
    if log != [] {
      var key := TxIndexKey(log[0].result.height, log[0].result.ethTxIndex);
      assert log[0] in log;
      IndexKeysFromLog(log, key);
      assert key in keys;
    }
  }

  lemma LeastKeyIsLowest(log: seq<Entry>, keys: set<Bytes>, key: Bytes)
    requires AllGood(log) && keys == IndexKeys(log)
    requires key in keys && forall k <- keys :: !LexLess(k, key)
    ensures ParseBlockNumber(key) == BlockNumber(Lowest(log))
  {
    hide TxIndexKey, LexLess, Replay, Lowest, ParseBlockNumber;
    IndexKeysFromLog(log, key);
    var e :| e in log && key == TxIndexKey(e.result.height, e.result.ethTxIndex);
    ParseOfKey(e.result.height, e.result.ethTxIndex);
    forall f | f in log ensures e.result.height <= f.result.height {
      var other := TxIndexKey(f.result.height, f.result.ethTxIndex);
      IndexKeysFromLog(log, other);
      assert other in keys;
      KeyOrder(f.result.height, f.result.ethTxIndex, e.result.height, e.result.ethTxIndex);
    }
    Extremes(log);
  }

  lemma GreatestKeyIsHighest(log: seq<Entry>, keys: set<Bytes>, key: Bytes)
    requires AllGood(log) && keys == IndexKeys(log)
    requires key in keys && forall k <- keys :: !LexLess(key, k)
    ensures ParseBlockNumber(key) == BlockNumber(Highest(log))
  {
    hide TxIndexKey, LexLess, Replay, Highest, ParseBlockNumber;
    IndexKeysFromLog(log, key);
    var e :| e in log && key == TxIndexKey(e.result.height, e.result.ethTxIndex);
    ParseOfKey(e.result.height, e.result.ethTxIndex);
    forall f | f in log ensures f.result.height <= e.result.height {
      var other := TxIndexKey(f.result.height, f.result.ethTxIndex);
      IndexKeysFromLog(log, other);
      assert other in keys;
      KeyOrder(e.result.height, e.result.ethTxIndex, f.result.height, f.result.ethTxIndex);
    }
    Extremes(log);
  }

  // ---------- the command ----------

  /** What one invocation finds: the blocks it can load, the heights at which
      loading results or writing fails, and the height of the block store. */
  datatype Node = Node(blocks: map<int, Block>, broken: set<int>, height: int)

  ghost predicate ValidNode(n: Node) {
    forall i <- n.blocks.Keys :: n.blocks[i].height == i && ValidBlock(n.blocks[i])
  }

  predicate CanIndex(n: Node, i: int) { i in n.blocks && i !in n.broken }

  /** The index together with the heights IndexBlock has completed for; the store
      itself has no trace of blocks without Ethereum transactions. */
  datatype Progress = Progress(log: seq<Entry>, done: set<int>)

  function Indexed(n: Node, x: Progress, i: int): Progress
    requires i in n.blocks
  {
    Progress(x.log + Entries(n.blocks[i]), x.done + {i})
  }

  /** The loop downward from i, until height 1 or the first error. */
  function Down(n: Node, x: Progress, i: int): Progress
    decreases i
  {
    if i <= 0 || !CanIndex(n, i) then x else Down(n, Indexed(n, x, i), i - 1)
  }

  /** The loop upward from i, until the block store's height or the first error. */
  function Up(n: Node, x: Progress, i: int): Progress
    decreases n.height - i
  {
    if i > n.height || !CanIndex(n, i) then x else Up(n, Indexed(n, x, i), i + 1)
  }

  function Backward(n: Node, x: Progress): Progress {
    Down(n, x, (if Lowest(x.log) == -1 then n.height else Lowest(x.log)) - 1)
  }

  function Forward(n: Node, x: Progress): Progress {
    Up(n, x, (if Highest(x.log) == -1 then 0 else Highest(x.log)) + 1)
  }

  datatype Direction = BackwardRun | ForwardRun

  /** index-eth-tx [backward|forward]; `ok` is false when the command stops early. */
  method IndexEthTx(idxer: TxIndexer, dir: Direction, n: Node, ghost done: set<int>)
    returns (ok: bool, ghost done': set<int>)
    requires idxer.Valid() && ValidNode(n)
    modifies idxer
    ensures idxer.Valid()
    ensures var x := Progress(old(idxer.log), done);
      Progress(idxer.log, done') == if dir == BackwardRun then Backward(n, x) else Forward(n, x)
    ensures var log := old(idxer.log);
      var first := if Lowest(log) == -1 then n.height else Lowest(log);
      var latest := if Highest(log) == -1 then 0 else Highest(log);
      ok <==> if dir == BackwardRun then forall h :: 0 < h < first ==> CanIndex(n, h)
              else forall h :: latest < h <= n.height ==> CanIndex(n, h)
  {
    hide Entries, Lowest, Highest, ValidBlock, Replay;
    ghost var x := Progress(idxer.log, done);
    done' := done;
    match dir
    case BackwardRun =>
      var r := idxer.LoadFirstBlock();
      var first := if r.value == -1 then n.height else r.value;
      var i := first - 1;
      while i > 0
        invariant idxer.Valid()
        invariant Down(n, x, first - 1) == Down(n, Progress(idxer.log, done'), i)
        invariant forall h :: 0 < h < first && i < h ==> CanIndex(n, h)
        decreases i
      {
        if i !in n.blocks {
          assert !CanIndex(n, i);
          return false, done';
        }
        ok := idxer.IndexBlock(n.blocks[i], i !in n.broken);
        if !ok {
          assert !CanIndex(n, i);
          return false, done';
        }
        done' := done' + {i};
        i := i - 1;
      }
      ok := true;
    case ForwardRun =>
      var r := idxer.LoadLastBlock();
      var latest := if r.value == -1 then 0 else r.value;
      var i := latest + 1;
      while i <= n.height
        invariant idxer.Valid()
        invariant Up(n, x, latest + 1) == Up(n, Progress(idxer.log, done'), i)
        invariant latest < i && forall h :: latest < h < i && h <= n.height ==> CanIndex(n, h)
        decreases n.height - i
      {
        if i !in n.blocks {
          assert !CanIndex(n, i);
          return false, done';
        }
        ok := idxer.IndexBlock(n.blocks[i], i !in n.broken);
        if !ok {
          assert !CanIndex(n, i);
          return false, done';
        }
        done' := done' + {i};
        i := i + 1;
      }
      ok := true;
  }

  // ---------- no gaps ----------

  /** Every height from the first to the last record has been indexed. */
  ghost predicate NoGap(x: Progress) {
    AllGood(x.log) && forall h :: x.log != [] && Lowest(x.log) <= h <= Highest(x.log) ==> h in x.done
  }

  lemma AfterBlock(n: Node, x: Progress, i: int)
    requires ValidNode(n) && i in n.blocks && AllGood(x.log)
    ensures var y := Indexed(n, x, i);
      && AllGood(y.log)
      && (forall e <- y.log :: e in x.log || e.result.height == i)
      && (y.log == x.log || (y.log != [] && Lowest(y.log) <= i <= Highest(y.log)))
      && (x.log != [] ==> y.log != [] && Lowest(y.log) <= Lowest(x.log) && Highest(x.log) <= Highest(y.log))
  {
    hide Lowest, Highest, Entries;
    var b := n.blocks[i];
    var y := Indexed(n, x, i);
    EntriesGood(b);
    StillGood(x.log, b);
    Extremes(x.log);
    Extremes(y.log);
    if Entries(b) == [] {
      assert y.log == x.log;
    } else {
      assert Entries(b)[0] in y.log;
    }
    if x.log != [] {
      var lo :| lo in x.log && lo.result.height == Lowest(x.log);
      var hi :| hi in x.log && hi.result.height == Highest(x.log);
      assert lo in y.log && hi in y.log;
    }
  }

  /** While going down: nothing recorded at or below i, everything done above it
      up to the highest record. */
  lemma {:induction false} DownKeeps(n: Node, x: Progress, i: int)
    requires ValidNode(n) && AllGood(x.log)
    requires x.log != [] ==> i < Lowest(x.log) && forall h :: i < h <= Highest(x.log) ==> h in x.done
    ensures NoGap(Down(n, x, i)) && x.done <= Down(n, x, i).done
    decreases i
  {
    hide Lowest, Highest, Entries, ValidBlock;
    if i > 0 && CanIndex(n, i) {
      var y := Indexed(n, x, i);
      AfterBlock(n, x, i);
      if y.log != [] {
        Extremes(x.log);
        Extremes(y.log);
        BoundsAfter(x.log, y.log, i);
      }
      DownKeeps(n, y, i - 1);
    }
  }

  lemma BoundsAfter(was: seq<Entry>, log: seq<Entry>, i: int)
    requires AllGood(was) && AllGood(log) && log != []
    requires forall e <- log :: e in was || e.result.height == i
    ensures was == [] ==> Lowest(log) == Highest(log) == i
    ensures was != [] && i < Lowest(was) ==> i <= Lowest(log) && Highest(log) <= Highest(was)
    ensures was != [] && Highest(was) < i ==> Highest(log) <= i && Lowest(was) <= Lowest(log)
  {
    hide Lowest, Highest, GoodEntry;
    Extremes(was);
    Extremes(log);
  }

  lemma {:induction false} UpKeeps(n: Node, x: Progress, i: int)
    requires ValidNode(n) && AllGood(x.log)
    requires x.log != [] ==> Highest(x.log) < i && forall h :: Lowest(x.log) <= h < i ==> h in x.done
    ensures NoGap(Up(n, x, i)) && x.done <= Up(n, x, i).done
    decreases n.height - i
  {
    hide Lowest, Highest, Entries, ValidBlock;
    if i <= n.height && CanIndex(n, i) {
      var y := Indexed(n, x, i);
      AfterBlock(n, x, i);
      if y.log != [] {
        BoundsAfter(x.log, y.log, i);
      }
      UpKeeps(n, y, i + 1);
    }
  }

  /** One command, complete or stopped by an error at any height, leaves no gap. */
  lemma CommandKeepsNoGap(n: Node, x: Progress, dir: Direction)
    requires ValidNode(n) && NoGap(x)
    ensures NoGap(if dir == BackwardRun then Backward(n, x) else Forward(n, x))
  {
    hide Lowest, Highest, Down, Up;
    Extremes(x.log);
    if dir == BackwardRun {
      DownKeeps(n, x, (if Lowest(x.log) == -1 then n.height else Lowest(x.log)) - 1);
    } else {
      UpKeeps(n, x, (if Highest(x.log) == -1 then 0 else Highest(x.log)) + 1);
    }
  }

  function Commands(x: Progress, runs: seq<(Direction, Node)>): Progress
    decreases runs
  {
    if runs == [] then x
    else
      var (dir, n) := runs[0];
      Commands(if dir == BackwardRun then Backward(n, x) else Forward(n, x), runs[1..])
  }

  /** After any mix of runs in both directions on a growing or shrinking node, every
      height between the first and the last indexed block has been indexed. */
  lemma {:induction false} BackfillNeverLeavesGap(x: Progress, runs: seq<(Direction, Node)>)
    requires NoGap(x) && forall run <- runs :: ValidNode(run.1)
    ensures NoGap(Commands(x, runs))
    decreases runs
  {
    hide NoGap, ValidNode, Backward, Forward;
    if runs != [] {
      var (dir, n) := runs[0];
      assert runs[0] in runs;
      CommandKeepsNoGap(n, x, dir);
      BackfillNeverLeavesGap(if dir == BackwardRun then Backward(n, x) else Forward(n, x), runs[1..]);
    }
  }

  /** Everything a block has to record is in the log. */
  ghost predicate Recorded(n: Node, x: Progress, h: int) {
    h in n.blocks && h in x.done && forall e <- Entries(n.blocks[h]) :: e in x.log
  }

  lemma {:induction false} DownReaches(n: Node, x: Progress, i: int)
    requires forall h :: 0 < h <= i ==> CanIndex(n, h)
    ensures forall h :: 0 < h <= i ==> Recorded(n, Down(n, x, i), h)
    ensures x.done <= Down(n, x, i).done && forall e <- x.log :: e in Down(n, x, i).log
    decreases i
  {
    hide Entries;
    if i > 0 {
      assert CanIndex(n, i);
      DownReaches(n, Indexed(n, x, i), i - 1);
    }
  }

  lemma {:induction false} UpReaches(n: Node, x: Progress, i: int)
    requires forall h :: i <= h <= n.height ==> CanIndex(n, h)
    ensures forall h :: i <= h <= n.height ==> Recorded(n, Up(n, x, i), h)
    ensures x.done <= Up(n, x, i).done && forall e <- x.log :: e in Up(n, x, i).log
    decreases n.height - i
  {
    hide Entries;
    if i <= n.height {
      assert CanIndex(n, i);
      UpReaches(n, Indexed(n, x, i), i + 1);
    }
  }

  /** A backward run that meets no error completes the index down to height 1 and
      records what the blocks hold. */
  lemma BackwardCompletes(n: Node, x: Progress)
    requires ValidNode(n) && NoGap(x) && x.log != []
    requires forall h :: 0 < h < Lowest(x.log) ==> h in n.blocks && h !in n.broken
    ensures forall h :: 0 < h <= Highest(x.log) ==> h in Backward(n, x).done
    ensures forall h :: 0 < h < Lowest(x.log) ==> Recorded(n, Backward(n, x), h)
  {
    hide Lowest, Highest, Entries;
    Extremes(x.log);
    DownReaches(n, x, Lowest(x.log) - 1);
    forall h | 0 < h <= Highest(x.log) ensures h in Backward(n, x).done {
      if h < Lowest(x.log) { assert Recorded(n, Backward(n, x), h); } else { assert h in x.done; }
    }
  }

  /** A forward run that meets no error completes it up to the block store's height,
      from the first block on if the index was empty. */
  lemma ForwardCompletes(n: Node, x: Progress)
    requires ValidNode(n) && NoGap(x)
    requires forall h :: h > 0 && h > Highest(x.log) && h <= n.height ==> h in n.blocks && h !in n.broken
    ensures forall h :: h > 0 && h > Highest(x.log) && h <= n.height ==> Recorded(n, Forward(n, x), h)
    ensures x.log != [] ==> forall h :: Lowest(x.log) <= h <= n.height && h > 0 ==> h in Forward(n, x).done
  {
    hide Lowest, Highest, Entries;
    Extremes(x.log);
    UpReaches(n, x, (if Highest(x.log) == -1 then 0 else Highest(x.log)) + 1);
    forall h | x.log != [] && Lowest(x.log) <= h <= n.height && h > 0 ensures h in Forward(n, x).done {
      if h > Highest(x.log) { assert Recorded(n, Forward(n, x), h); } else { assert h in x.done; }
    }
  }

  lemma {:induction false} DownLeaves(n: Node, x: Progress, i: int, h: int)
    requires h > i
    ensures h in Down(n, x, i).done <==> h in x.done
    decreases i
  {
    if i > 0 && CanIndex(n, i) {
      DownLeaves(n, Indexed(n, x, i), i - 1, h);
    }
  }

  /** On an empty index a backward run starts below the latest block: the block at
      the store's height itself is done afterwards only if it was done before. */
  lemma BackwardFromEmptySkipsLatest(n: Node, done: set<int>)
    ensures n.height in Backward(n, Progress([], done)).done <==> n.height in done
  {
    DownLeaves(n, Progress([], done), n.height - 1, n.height);
  }
}
