/** The LRU cache of decode results behind IsOrphanEVMTx: the pool lookup is made
    on every call, only the decoding is remembered. */
module OrphanCache {
  import opened Common

  type TxBytes = seq<int>
  type Key = seq<int>
  type EthHash = nat

  /** What a tx decodes to: an error, something that is not a single EVM message,
      or an EVM transaction with its hash. */
  datatype Decoded = Undecodable | NotEvm | Evm(hash: EthHash)

  datatype CacheLine = CacheLine(key: Key, decoded: Decoded)

  /** Decoder and digest, both deterministic, and the size of the cache. */
  datatype Host = Host(decode: TxBytes -> Decoded, digest: TxBytes -> Key, capacity: nat)

  /** The answer without a cache: decode afresh and test pool membership now. */
  function Reference(h: Host, pool: set<EthHash>, tx: TxBytes): bool {
    || h.decode(tx).Undecodable?
    || (h.decode(tx).Evm? && h.decode(tx).hash !in pool)
  }

  function Verdict(d: Decoded, pool: set<EthHash>): bool {
    match d
    case Undecodable => true
    case NotEvm => false
    case Evm(hash) => hash !in pool
  }

  // ---------- the LRU list, most recent first ----------

  function Find(cache: seq<CacheLine>, key: Key): Option<Decoded> {
    if cache == [] then None
    else if cache[0].key == key then Some(cache[0].decoded)
    else Find(cache[1..], key)
  }

  function Without(cache: seq<CacheLine>, key: Key): seq<CacheLine> {
    if cache == [] then []
    else if cache[0].key == key then cache[1..]
    else [cache[0]] + Without(cache[1..], key)
  }

  /** Get moves a hit to the front. */
  function Touch(cache: seq<CacheLine>, key: Key): seq<CacheLine> {
    if Find(cache, key).Some? then [CacheLine(key, Find(cache, key).value)] + Without(cache, key) else cache
  }

  /** Add puts the line in front and drops the oldest one beyond the capacity. */
  function Add(cache: seq<CacheLine>, line: CacheLine, capacity: nat): seq<CacheLine> {
    var longer := [line] + Without(cache, line.key);
    if |longer| > capacity then longer[..capacity] else longer
  }

  /** IsOrphanEVMTx: the answer and the cache it leaves. A decode error is not remembered. */
  function Ask(h: Host, cache: seq<CacheLine>, pool: set<EthHash>, tx: TxBytes): (bool, seq<CacheLine>) {
    var key := h.digest(tx);
    match Find(cache, key)
    case Some(d) => (Verdict(d, pool), Touch(cache, key))
    case None =>
      var d := h.decode(tx);
      (Verdict(d, pool), if d.Undecodable? then cache else Add(cache, CacheLine(key, d), h.capacity))
  }

  // ---------- the object ----------

  class OrphanChecker {
    const host: Host
    var orphanDecodeCache: seq<CacheLine>
    var legacyTxPool: set<EthHash>

    constructor (host: Host)
      requires host.capacity > 0
      ensures this.host == host && orphanDecodeCache == [] && legacyTxPool == {}
    {
      this.host, orphanDecodeCache, legacyTxPool := host, [], {};
    }

    /** On a cache filled by earlier calls the answer is that of a fresh decoding,
        for a digest that keeps differently decoding transactions apart. */
    method IsOrphanEVMTx(txBytes: TxBytes) returns (orphan: bool)
      modifies `orphanDecodeCache
      ensures (orphan, orphanDecodeCache) == Ask(host, old(orphanDecodeCache), legacyTxPool, txBytes)
      ensures Faithful(host, old(orphanDecodeCache)) ==> Faithful(host, orphanDecodeCache)
      ensures Faithful(host, old(orphanDecodeCache)) && NoHarmfulCollision(host) ==>
                orphan == Reference(host, legacyTxPool, txBytes)
      ensures |old(orphanDecodeCache)| <= host.capacity ==> |orphanDecodeCache| <= host.capacity
    {
      if Faithful(host, orphanDecodeCache) {
        AskFaithful(host, orphanDecodeCache, legacyTxPool, txBytes);
      }
      AskBounded(host, orphanDecodeCache, legacyTxPool, txBytes);
      var cacheKey := host.digest(txBytes);
      var entry := Find(orphanDecodeCache, cacheKey);
      if entry.Some? {
        orphanDecodeCache := Touch(orphanDecodeCache, cacheKey);
        if entry.value.NotEvm? {
          return false;
        }
        return Verdict(entry.value, legacyTxPool);
      }
      match host.decode(txBytes)
      case Undecodable => return true;
      case NotEvm =>
        orphanDecodeCache := Add(orphanDecodeCache, CacheLine(cacheKey, NotEvm), host.capacity);
        return false;
      case Evm(hash) =>
        orphanDecodeCache := Add(orphanDecodeCache, CacheLine(cacheKey, Evm(hash)), host.capacity);
        return hash !in legacyTxPool;
    }
  }

  // ---------- what the cache remembers ----------

  /** Every line was decoded from some transaction with its key. */
  ghost predicate Faithful(h: Host, cache: seq<CacheLine>) {
    forall line <- cache ::
      && !line.decoded.Undecodable?
      && exists tx :: h.digest(tx) == line.key && h.decode(tx) == line.decoded
  }

  /** A transaction that shares its key with a decodable one decodes like it. */
  ghost predicate NoHarmfulCollision(h: Host) {
    forall a, b :: h.digest(a) == h.digest(b) && !h.decode(a).Undecodable? ==> h.decode(b) == h.decode(a)
  }

  lemma {:induction false} FindIn(cache: seq<CacheLine>, key: Key)
    ensures Find(cache, key).Some? ==> CacheLine(key, Find(cache, key).value) in cache
  {
    if cache != [] {
      FindIn(cache[1..], key);
    }
  }

  lemma {:induction false} WithoutIn(cache: seq<CacheLine>, key: Key)
    ensures forall line <- Without(cache, key) :: line in cache
    ensures |Without(cache, key)| == |cache| - if Find(cache, key).Some? then 1 else 0
  {
    if cache != [] {
      WithoutIn(cache[1..], key);
    }
  }

  lemma AskBounded(h: Host, cache: seq<CacheLine>, pool: set<EthHash>, tx: TxBytes)
    ensures |cache| <= h.capacity ==> |Ask(h, cache, pool, tx).1| <= h.capacity
  {
    WithoutIn(cache, h.digest(tx));
  }

  lemma AskFaithful(h: Host, cache: seq<CacheLine>, pool: set<EthHash>, tx: TxBytes)
    requires Faithful(h, cache)
    ensures Faithful(h, Ask(h, cache, pool, tx).1)
    ensures NoHarmfulCollision(h) ==> Ask(h, cache, pool, tx).0 == Reference(h, pool, tx)
  {
    var key := h.digest(tx);
    FindIn(cache, key);
    WithoutIn(cache, key);
    var after := Ask(h, cache, pool, tx).1;
    forall line | line in after ensures line in cache || line == CacheLine(key, h.decode(tx)) {
    }
  }

  // ---------- least recently used ----------

  ghost predicate DistinctKeys(cache: seq<CacheLine>) {
    forall i, j :: 0 <= i < j < |cache| ==> cache[i].key != cache[j].key
  }

  /** The lines under other keys, in their order. */
  function Others(cache: seq<CacheLine>, key: Key): seq<CacheLine> {
    if cache == [] then []
    else (if cache[0].key == key then [] else [cache[0]]) + Others(cache[1..], key)
  }

  lemma {:induction false} OthersAre(cache: seq<CacheLine>, key: Key)
    requires DistinctKeys(cache)
    ensures Without(cache, key) == Others(cache, key) && |Others(cache, key)| <= |cache|
    ensures Find(cache, key).None? ==> Others(cache, key) == cache
    ensures DistinctKeys(Others(cache, key)) && forall line <- Others(cache, key) :: line in cache && line.key != key
    decreases cache
  {
    if cache != [] {
      var rest := cache[1..];
      RestDistinct(cache);
      OthersAre(rest, key);
      assert cache == [cache[0]] + rest;
      if cache[0].key == key {
        NoneOther(rest, key);
      } else {
        hide DistinctKeys;
        DistinctCons(cache[0], Others(rest, key), |Others(rest, key)|);
        assert Others(rest, key)[..|Others(rest, key)|] == Others(rest, key);
      }
    }
  }

  lemma RestDistinct(cache: seq<CacheLine>)
    requires DistinctKeys(cache) && cache != []
    ensures DistinctKeys(cache[1..]) && forall line <- cache[1..] :: line.key != cache[0].key
  {
    forall i, j | 0 <= i < j < |cache[1..]| ensures cache[1..][i].key != cache[1..][j].key {
      assert cache[1..][i] == cache[i + 1] && cache[1..][j] == cache[j + 1];
    }
  }

  lemma {:induction false} NoneOther(cache: seq<CacheLine>, key: Key)
    requires forall line <- cache :: line.key != key
    ensures Others(cache, key) == cache
    decreases cache
  {
    if cache != [] {
      NoneOther(cache[1..], key);
    }
  }

  /** Every query that decodes makes its line the most recent one, keeps the others in
      their order, and drops the least recent one only when the cache is full. */
  lemma AskRecency(h: Host, cache: seq<CacheLine>, pool: set<EthHash>, tx: TxBytes)
    requires h.capacity > 0 && DistinctKeys(cache) && |cache| <= h.capacity
    ensures var key := h.digest(tx); var after := Ask(h, cache, pool, tx).1; var others := Others(cache, key);
      && DistinctKeys(after)
      && (if Find(cache, key).None? && h.decode(tx).Undecodable? then after == cache
          else
            && after != [] && after[0].key == key
            && after[1..] == if 1 + |others| <= h.capacity then others else others[..h.capacity - 1])
  {
    var key := h.digest(tx);
    OthersAre(cache, key);
    if Find(cache, key).Some? {
      FoundIsOne(cache, key);
      DistinctCons(CacheLine(key, Find(cache, key).value), Others(cache, key), |Others(cache, key)|);
      assert Others(cache, key)[..|Others(cache, key)|] == Others(cache, key);
    } else if !h.decode(tx).Undecodable? {
      AddKeeps(CacheLine(key, h.decode(tx)), cache, h.capacity);
    }
  }

  lemma DistinctCons(line: CacheLine, others: seq<CacheLine>, n: nat)
    requires DistinctKeys(others) && (forall l <- others :: l.key != line.key) && n <= |others|
    ensures DistinctKeys([line] + others[..n])
  {
    var all := [line] + others[..n];
    forall i, j | 0 <= i < j < |all| ensures all[i].key != all[j].key {
      assert all[j] == others[j - 1];
      if i > 0 { assert all[i] == others[i - 1]; }
    }
  }

  lemma AddKeeps(line: CacheLine, cache: seq<CacheLine>, capacity: nat)
    requires capacity > 0 && DistinctKeys(cache)
    ensures var others := Others(cache, line.key); var n := if 1 + |others| <= capacity then |others| else capacity - 1;
      Add(cache, line, capacity) == [line] + others[..n] && DistinctKeys([line] + others[..n])
  {
    OthersAre(cache, line.key);
    var others := Others(cache, line.key);
    hide Others, Without, DistinctKeys;
    DistinctCons(line, others, if 1 + |others| <= capacity then |others| else capacity - 1);
    assert others[..|others|] == others;
  }

  lemma {:induction false} FoundIsOne(cache: seq<CacheLine>, key: Key)
    requires DistinctKeys(cache) && Find(cache, key).Some?
    ensures |Others(cache, key)| + 1 == |cache|
    decreases cache
  {
    var rest := cache[1..];
    if cache[0].key == key {
      NoneOther(rest, key);
    } else {
      FoundIsOne(rest, key);
    }
  }

  // ---------- whole runs ----------

  /** What can happen between calls: the pool changes at will. */
  datatype Event = Query(tx: TxBytes) | Insert(hash: EthHash) | Remove(hash: EthHash)

  function NextPool(pool: set<EthHash>, e: Event): set<EthHash> {
    match e
    case Query(_) => pool
    case Insert(hash) => pool + {hash}
    case Remove(hash) => pool - {hash}
  }

  /** The answers to the queries of a run, through the cache. */
  function Answers(h: Host, cache: seq<CacheLine>, pool: set<EthHash>, run: seq<Event>): seq<bool>
    decreases run
  {
    if run == [] then []
    else if run[0].Query? then
      var (r, cache') := Ask(h, cache, pool, run[0].tx);
      [r] + Answers(h, cache', pool, run[1..])
    else Answers(h, cache, NextPool(pool, run[0]), run[1..])
  }

  function FreshAnswers(h: Host, pool: set<EthHash>, run: seq<Event>): seq<bool>
    decreases run
  {
    if run == [] then []
    else if run[0].Query? then [Reference(h, pool, run[0].tx)] + FreshAnswers(h, pool, run[1..])
    else FreshAnswers(h, NextPool(pool, run[0]), run[1..])
  }

  lemma {:induction false} RunTransparent(h: Host, cache: seq<CacheLine>, pool: set<EthHash>, run: seq<Event>)
    requires Faithful(h, cache) && NoHarmfulCollision(h)
    ensures Answers(h, cache, pool, run) == FreshAnswers(h, pool, run)
    decreases run
  {
    hide Ask, Reference, Faithful;
    if run != [] {
      if run[0].Query? {
        AskFaithful(h, cache, pool, run[0].tx);
        RunTransparent(h, Ask(h, cache, pool, run[0].tx).1, pool, run[1..]);
      } else {
        RunTransparent(h, cache, NextPool(pool, run[0]), run[1..]);
      }
    }
  }

  /** Two queries in a row for transactions with one key: the second is answered
      from the first one's line. */
  lemma SecondFromCache(h: Host, pool: set<EthHash>, a: TxBytes, b: TxBytes)
    requires h.capacity > 0 && h.digest(a) == h.digest(b) && !h.decode(a).Undecodable?
    ensures Answers(h, [], pool, [Query(a), Query(b)]) == [Verdict(h.decode(a), pool), Verdict(h.decode(a), pool)]
    ensures FreshAnswers(h, pool, [Query(a), Query(b)]) == [Verdict(h.decode(a), pool), Verdict(h.decode(b), pool)]
  {
    var run := [Query(a), Query(b)];
    var line := CacheLine(h.digest(a), h.decode(a));
    assert run[1..] == [Query(b)] && run[1..][1..] == [];
    assert Add([], line, h.capacity) == [line];
    assert Find([line], h.digest(b)) == Some(line.decoded);
    var cache' := Ask(h, [line], pool, b).1;
    assert FreshAnswers(h, pool, run[1..]) == [Verdict(h.decode(b), pool)] + FreshAnswers(h, pool, run[1..][1..]);
    assert Answers(h, [line], pool, run[1..]) == [Verdict(h.decode(a), pool)] + Answers(h, cache', pool, run[1..][1..]);
  }

  /** The cache is transparent over every run of queries, pool changes and
      evictions if and only if the digest has no harmful collision. */
  lemma TransparentIff(h: Host)
    requires h.capacity > 0
    ensures (forall pool, run {:trigger Answers(h, [], pool, run)} ::
               Answers(h, [], pool, run) == FreshAnswers(h, pool, run))
       <==> NoHarmfulCollision(h)
  {
    hide Answers, FreshAnswers;
    if NoHarmfulCollision(h) {
      forall pool, run ensures Answers(h, [], pool, run) == FreshAnswers(h, pool, run) {
        RunTransparent(h, [], pool, run);
      }
    } else {
      var a, b :| h.digest(a) == h.digest(b) && !h.decode(a).Undecodable? && h.decode(b) != h.decode(a);
      var pool: set<EthHash> := if h.decode(a).Evm? && !h.decode(b).NotEvm? then {h.decode(a).hash} else {};
      SecondFromCache(h, pool, a, b);
      var cached, afresh := Answers(h, [], pool, [Query(a), Query(b)]), FreshAnswers(h, pool, [Query(a), Query(b)]);
      assert cached[1] != afresh[1];
    }
  }
}
