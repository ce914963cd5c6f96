/** The iterator that merges the EVM lane (one nonce-ordered bucket per sender,
    behind a heap of bucket heads) with the Cosmos lane (one priority-ordered
    list) by effective tip. */
module MempoolIterator {
  import opened Common

  type Account = nat

  /** A pending EVM transaction: `rank` orders heads of equal tip in the heap
      (arrival time), `converts` says whether it can be wrapped as an SDK tx. */
  datatype EvmTx = EvmTx(sender: Account, nonce: uint64, tip: nat, rank: nat, converts: bool)

  /** `fees` is None for a transaction that does not carry fees at all; `id`
      stands for the identity of the Go pointer. */
  datatype CosmosTx = CosmosTx(id: nat, fees: Option<seq<Coin>>, gas: positive)

  /** Gas limits; the original divides by them. */
  type positive = x: nat | x >= 1 witness 1

  datatype Tx = FromEvm(evm: EvmTx) | FromCosmos(cosmos: CosmosTx)

  type EvmLane = map<Account, seq<EvmTx>>

  datatype Params = Params(bondDenom: string, baseFee: Option<nat>)

  /** State of the merged iterator; `fromEvm` is the cached lane of the last
      transaction handed out. */
  datatype Lanes = Lanes(evm: EvmLane, cosmos: seq<CosmosTx>, fromEvm: bool)

  // ---------- the heap of bucket heads ----------

  predicate Ahead(x: EvmTx, y: EvmTx) {
    x.tip > y.tip || (x.tip == y.tip && x.rank < y.rank)
  }

  predicate IsTop(lane: EvmLane, a: Account) {
    && a in lane && lane[a] != []
    && forall b | b in lane && b != a && lane[b] != [] :: Ahead(lane[a][0], lane[b][0])
  }

  /** Buckets are non-empty, hold their sender's transactions by increasing
      nonce, and ranks tell transactions of different senders apart, so heads
      are totally ordered. */
  ghost predicate ValidLane(lane: EvmLane) {
    && (forall a :: a in lane ==> ValidBucket(lane[a], a))
    && (forall a, b :: a in lane && b in lane && a != b ==> Apart(lane[a], lane[b]))
  }

  ghost predicate Apart(xs: seq<EvmTx>, ys: seq<EvmTx>) {
    forall x <- xs, y <- ys :: x.rank != y.rank
  }

  ghost predicate ValidBucket(bucket: seq<EvmTx>, a: Account) {
    && bucket != []
    && (forall x <- bucket :: x.sender == a)
    && (forall i, j :: 0 <= i < j < |bucket| ==> bucket[i].nonce < bucket[j].nonce)
  }

  /** The account at the top of the heap (some account, were heads not ordered). */
  ghost function Top(lane: EvmLane): (a: Account)
    requires lane != map[]
    ensures a in lane
  {
    if exists a: Account :: IsTop(lane, a) then
      var a: Account :| IsTop(lane, a); a
    else
      var a: Account :| a in lane; a
  }

  ghost predicate HeadsOrdered(lane: EvmLane) {
    && (forall a :: a in lane ==> lane[a] != [])
    && (forall a, b :: a in lane && b in lane && a != b ==>
          Ahead(lane[a][0], lane[b][0]) || Ahead(lane[b][0], lane[a][0]))
  }

  lemma AheadTransitive(x: EvmTx, y: EvmTx, z: EvmTx)
    ensures Ahead(x, y) && Ahead(y, z) ==> Ahead(x, z)
  {
  }

  /** The best of some of the heads. */
  lemma {:induction false} BestOf(lane: EvmLane, keys: set<Account>) returns (t: Account)
    requires HeadsOrdered(lane) && keys <= lane.Keys && keys != {}
    ensures t in keys && forall b <- keys :: b != t ==> Ahead(lane[t][0], lane[b][0])
    decreases |keys|
  {
    hide Ahead;
    var a :| a in keys;
    var rest := keys - {a};
    t := a;
    if rest != {} {
      var r := BestOf(lane, rest);
      if Ahead(lane[a][0], lane[r][0]) {
        forall b | b in rest ensures Ahead(lane[a][0], lane[b][0]) {
          AheadTransitive(lane[a][0], lane[r][0], lane[b][0]);
        }
      } else {
        assert Ahead(lane[r][0], lane[a][0]);
        t := r;
      }
    }
    assert forall b <- keys :: b == a || b in rest;
  }

  /** With heads totally ordered there is a top, and it is ahead of every other head. */
  lemma TopExists(lane: EvmLane)
    requires lane != map[] && ValidLane(lane)
    ensures IsTop(lane, Top(lane))
  {
    forall a, b | a in lane && b in lane && a != b
      ensures Ahead(lane[a][0], lane[b][0]) || Ahead(lane[b][0], lane[a][0])
    {
      assert Apart(lane[a], lane[b]);
      assert lane[a][0] in lane[a] && lane[b][0] in lane[b];
    }
    hide Ahead;
    var t := BestOf(lane, lane.Keys);
    assert IsTop(lane, t);
  }

  lemma TopUnique(lane: EvmLane, a: Account)
    requires lane != map[] && IsTop(lane, a)
    ensures Top(lane) == a
  {
  }

  ghost function HeadTx(lane: EvmLane): EvmTx
    requires lane != map[] && lane[Top(lane)] != []
  {
    lane[Top(lane)][0]
  }

  /** Peek of the heap. */
  ghost function Peek(lane: EvmLane): Option<EvmTx> {
    if lane == map[] || lane[Top(lane)] == [] then None else Some(HeadTx(lane))
  }

  function DropHead(lane: EvmLane, a: Account): EvmLane
    requires a in lane
  {
    if |lane[a]| <= 1 then lane - {a} else lane[a := lane[a][1..]]
  }

  ghost function ShiftLane(lane: EvmLane): EvmLane {
    if lane == map[] then lane else DropHead(lane, Top(lane))
  }

  ghost function PopLane(lane: EvmLane): EvmLane {
    if lane == map[] then lane else lane - {Top(lane)}
  }

  // ---------- effective tip and choice of lane ----------

  const UINT256: nat := 0x1_0000000000000000_0000000000000000_0000000000000000_0000000000000000

  /** The amount of the last fee coin in the bond denomination. */
  function BondFee(denom: string, fees: seq<Coin>): nat {
    if fees == [] then 0
    else if fees[|fees| - 1].denom == denom then fees[|fees| - 1].amount
    else BondFee(denom, fees[..|fees| - 1])
  }

  /** extractCosmosEffectiveTip, with its nil results read as the zero tip that
      getNextCosmosTx substitutes. */
  function CosmosTip(p: Params, tx: CosmosTx): nat {
    if tx.fees.None? then 0
    else
      var gasPrice := BondFee(p.bondDenom, tx.fees.value) / tx.gas;
      if gasPrice >= UINT256 then 0
      else if p.baseFee.None? || p.baseFee.value >= UINT256 then gasPrice
      else if gasPrice < p.baseFee.value then 0
      else gasPrice - p.baseFee.value
  }

  ghost function ShouldUseEvm(p: Params, l: Lanes): bool {
    match Peek(l.evm)
    case None => false
    case Some(e) =>
      l.cosmos == [] || CosmosTip(p, l.cosmos[0]) == 0 || !(CosmosTip(p, l.cosmos[0]) > e.tip)
  }

  /** What Tx() returns. */
  ghost function Current(p: Params, l: Lanes): Option<Tx> {
    if ShouldUseEvm(p, l) && Peek(l.evm).value.converts then Some(FromEvm(Peek(l.evm).value))
    else if l.cosmos != [] then Some(FromCosmos(l.cosmos[0]))
    else None
  }

  /** The state Tx() leaves: only the cached lane changes. */
  ghost function AfterTx(p: Params, l: Lanes): Lanes {
    if Peek(l.evm).None? && l.cosmos == [] then l
    else l.(fromEvm := ShouldUseEvm(p, l) && Peek(l.evm).value.converts)
  }

  ghost function Exhausted(l: Lanes): bool { Peek(l.evm).None? && l.cosmos == [] }

  /** The state Next() leaves; the iterator it returns is nil when that is exhausted. */
  ghost function Advance(l: Lanes): Lanes {
    if Exhausted(l) then l
    else if l.fromEvm then l.(evm := ShiftLane(l.evm))
    else l.(cosmos := if l.cosmos == [] then [] else l.cosmos[1..])
  }

  ghost function PopAccount(l: Lanes): Lanes {
    if l.fromEvm then l.(evm := PopLane(l.evm)) else l
  }

  // ---------- the object ----------

  class EVMMempoolIterator {
    var evmIterator: EvmLane
    var cosmosIterator: seq<CosmosTx>
    var lastReturnedFromEVM: bool
    const params: Params

    ghost function State(): Lanes
      reads this
    {
      Lanes(evmIterator, cosmosIterator, lastReturnedFromEVM)
    }

    ghost predicate Valid()
      reads this
    {
      ValidLane(evmIterator)
    }

    constructor (evm: EvmLane, cosmos: seq<CosmosTx>, params: Params)
      requires ValidLane(evm)
      ensures Valid() && State() == Lanes(evm, cosmos, false) && this.params == params
    {
      evmIterator, cosmosIterator, lastReturnedFromEVM := evm, cosmos, false;
      this.params := params;
    }

    method GetNextEVMTx() returns (tx: Option<EvmTx>)
      requires Valid()
      ensures tx == Peek(evmIterator)
    {
      if evmIterator == map[] {
        return None;
      }
      TopExists(evmIterator);
      var a :| a in evmIterator && IsTop(evmIterator, a);
      TopUnique(evmIterator, a);
      return Some(evmIterator[a][0]);
    }

    method GetNextCosmosTx() returns (tx: Option<CosmosTx>, tip: nat)
      ensures tx == if cosmosIterator == [] then None else Some(cosmosIterator[0])
      ensures tx.Some? ==> tip == CosmosTip(params, tx.value)
    {
      if cosmosIterator == [] {
        return None, 0;
      }
      return Some(cosmosIterator[0]), CosmosTip(params, cosmosIterator[0]);
    }

    method ShouldUseEVM() returns (b: bool)
      requires Valid()
      ensures b == ShouldUseEvm(params, State())
    {
      var nextEVMTx := GetNextEVMTx();
      var nextCosmosTx, cosmosFee := GetNextCosmosTx();
      if nextEVMTx == None {
        return false;
      }
      if nextCosmosTx == None {
        return true;
      }
      if cosmosFee == 0 {
        return true;
      }
      return !(cosmosFee > nextEVMTx.value.tip);
    }

    method Tx() returns (tx: Option<Tx>)
      requires Valid()
      modifies `lastReturnedFromEVM
      ensures Valid() && State() == AfterTx(params, old(State()))
      ensures tx == Current(params, old(State()))
    {
      var nextEVMTx := GetNextEVMTx();
      var nextCosmosTx, _ := GetNextCosmosTx();
      if nextEVMTx == None && nextCosmosTx == None {
        return None;
      }
      var useEVM := ShouldUseEVM();
      if useEVM {
        if nextEVMTx.value.converts {
          lastReturnedFromEVM := true;
          return Some(FromEvm(nextEVMTx.value));
        }
      }
      lastReturnedFromEVM := false;
      tx := if nextCosmosTx.Some? then Some(FromCosmos(nextCosmosTx.value)) else None;
    }

    /** Next, returning whether the returned iterator is not nil. The heap must not
        be empty when the last transaction came from it. */
    method Next() returns (more: bool)
      requires Valid() && (lastReturnedFromEVM ==> evmIterator != map[])
      modifies `evmIterator, `cosmosIterator
      ensures Valid() && State() == Advance(old(State()))
      ensures more == !Exhausted(State())
    {
      var nextEVMTx := GetNextEVMTx();
      if nextEVMTx == None && cosmosIterator == [] {
        return false;
      }
      if lastReturnedFromEVM {
        TopExists(evmIterator);
        var a :| a in evmIterator && IsTop(evmIterator, a);
        TopUnique(evmIterator, a);
        DropHeadValid(evmIterator, a);
        evmIterator := DropHead(evmIterator, a);
      } else if cosmosIterator != [] {
        cosmosIterator := cosmosIterator[1..];
      }
      var e := GetNextEVMTx();
      more := e != None || cosmosIterator != [];
    }

    method PopCurrentAccount()
      requires Valid()
      modifies `evmIterator
      ensures Valid() && State() == PopAccount(old(State()))
    {
      if evmIterator == map[] || !lastReturnedFromEVM {
        return;
      }
      TopExists(evmIterator);
      var a :| a in evmIterator && IsTop(evmIterator, a);
      TopUnique(evmIterator, a);
      evmIterator := evmIterator - {a};
    }

    function CurrentIsEVM(): bool
      reads this
    {
      lastReturnedFromEVM
    }
  }

  lemma DropHeadValid(lane: EvmLane, a: Account)
    requires ValidLane(lane) && a in lane
    ensures ValidLane(DropHead(lane, a))
  {
    var after := DropHead(lane, a);
    forall b | b in after ensures ValidBucket(after[b], b) && forall x :: x in after[b] ==> x in lane[b] {
      assert ValidBucket(lane[b], b);
    }
  }

  lemma AdvanceValid(l: Lanes)
    requires ValidLane(l.evm)
    ensures ValidLane(Advance(l).evm) && ValidLane(PopAccount(l).evm)
  {
    if l.evm != map[] {
      DropHeadValid(l.evm, Top(l.evm));
    }
  }
}
