/** What clients of the merged iterator see over whole runs. */
module IteratorRuns {
  import opened Common
  import opened MempoolIterator

  datatype Op = NextOp | PopOp

  ghost function Do(op: Op, l: Lanes): Lanes {
    match op
    case NextOp => Advance(l)
    case PopOp => PopAccount(l)
  }

  /** The transactions a client receives that calls Tx() and then the next
      operation of its script, until Tx() returns nil or the script ends. */
  ghost function Run(p: Params, l: Lanes, ops: seq<Op>): seq<Tx>
    decreases ops
  {
    if ops == [] || Current(p, l).None? then []
    else [Current(p, l).value] + Run(p, Do(ops[0], AfterTx(p, l)), ops[1..])
  }

  /** The client pops only while CurrentIsEVM() holds, as the proposal builder does. */
  ghost predicate PopsOnEvmOnly(p: Params, l: Lanes, ops: seq<Op>)
    decreases ops
  {
    ops == [] || Current(p, l).None? ||
    ((ops[0] == PopOp ==> AfterTx(p, l).fromEvm) && PopsOnEvmOnly(p, Do(ops[0], AfterTx(p, l)), ops[1..]))
  }

  ghost function Bucket(l: Lanes, a: Account): seq<EvmTx> {
    if a in l.evm then l.evm[a] else []
  }

  ghost function EvmYields(ys: seq<Tx>, a: Account): seq<EvmTx> {
    if ys == [] then []
    else (if ys[0].FromEvm? && ys[0].evm.sender == a then [ys[0].evm] else []) + EvmYields(ys[1..], a)
  }

  ghost function CosmosYields(ys: seq<Tx>): seq<CosmosTx> {
    if ys == [] then []
    else (if ys[0].FromCosmos? then [ys[0].cosmos] else []) + CosmosYields(ys[1..])
  }

  // ---------- one step ----------

  /** Tx() hands out the head of a bucket or the head of the Cosmos lane, and the
      cached lane says which. */
  lemma CurrentIsHead(p: Params, l: Lanes)
    requires ValidLane(l.evm) && Current(p, l).Some?
    ensures var l1 := AfterTx(p, l);
      && l1.evm == l.evm && l1.cosmos == l.cosmos
      && match Current(p, l).value
         case FromEvm(e) =>
           && l1.fromEvm && l.evm != map[] && e.converts && e.sender == Top(l.evm)
           && Bucket(l, e.sender) != [] && e == Bucket(l, e.sender)[0]
         case FromCosmos(c) => !l1.fromEvm && l.cosmos != [] && c == l.cosmos[0]
  {
    if l.evm != map[] {
      TopExists(l.evm);
      var a := Top(l.evm);
      assert ValidBucket(l.evm[a], a);
      assert l.evm[a][0] in l.evm[a];
    }
  }

  /** Next() after an EVM transaction removes just that one; after a Cosmos
      transaction it drops the head of the Cosmos lane. */
  lemma NextEffect(p: Params, l: Lanes, a: Account)
    requires ValidLane(l.evm) && Current(p, l).Some?
    ensures var l2 := Advance(AfterTx(p, l));
      && ValidLane(l2.evm)
      && match Current(p, l).value
         case FromEvm(e) =>
           l2.cosmos == l.cosmos && Bucket(l2, a) == if a == e.sender then Bucket(l, a)[1..] else Bucket(l, a)
         case FromCosmos(c) =>
           l2.cosmos == l.cosmos[1..] && l2.evm == l.evm
  {
    CurrentIsHead(p, l);
    AdvanceValid(AfterTx(p, l));
  }

  /** PopCurrentAccount() after an EVM transaction empties that sender's bucket;
      after a Cosmos transaction it does nothing. */
  lemma PopEffect(p: Params, l: Lanes, a: Account)
    requires ValidLane(l.evm) && Current(p, l).Some?
    ensures var l2 := PopAccount(AfterTx(p, l));
      && ValidLane(l2.evm)
      && match Current(p, l).value
         case FromEvm(e) => l2.cosmos == l.cosmos && Bucket(l2, a) == if a == e.sender then [] else Bucket(l, a)
         case FromCosmos(c) => l2 == AfterTx(p, l)
  {
    CurrentIsHead(p, l);
    AdvanceValid(AfterTx(p, l));
  }

  /** When a client pops on a Cosmos head, the next Tx() repeats the transaction:
      the guard CurrentIsEVM() is what keeps a client from seeing it twice. */
  lemma PopRepeatsUnlessEvm(p: Params, l: Lanes)
    requires ValidLane(l.evm) && Current(p, l).Some?
    ensures var l1 := AfterTx(p, l);
      Current(p, PopAccount(l1)) == Current(p, l) <==> !l1.fromEvm
  {
    var l1 := AfterTx(p, l);
    CurrentIsHead(p, l);
    if l1.fromEvm {
      var e := Current(p, l).value.evm;
      PopEffect(p, l, e.sender);
      var l2 := PopAccount(l1);
      if Current(p, l2).Some? { CurrentIsHead(p, l2); }
    }
  }

  // ---------- whole runs ----------

  /** For every client that pops on EVM heads only, and whether or not EVM
      transactions convert: what it sees of the Cosmos lane is a prefix of that
      lane, and what it sees of each sender is a prefix of the sender's bucket. */
  lemma {:induction false} YieldsArePrefixes(p: Params, l: Lanes, ops: seq<Op>, a: Account)
    requires ValidLane(l.evm) && PopsOnEvmOnly(p, l, ops)
    ensures CosmosYields(Run(p, l, ops)) <= l.cosmos
    ensures EvmYields(Run(p, l, ops), a) <= Bucket(l, a)
    decreases ops
  {
    hide Current, AfterTx, Advance, PopAccount, ValidLane;
    if ops != [] && Current(p, l).Some? {
      var l1 := AfterTx(p, l);
      CurrentIsHead(p, l);
      NextEffect(p, l, a);
      PopEffect(p, l, a);
      var l2 := Do(ops[0], l1);
      YieldsArePrefixes(p, l2, ops[1..], a);
      var rest := Run(p, l2, ops[1..]);
      var t := Current(p, l).value;
      assert Run(p, l, ops) == [t] + rest;
      YieldsOfCons(t, rest, a);
      hide Run, EvmYields, CosmosYields, PopsOnEvmOnly, Bucket;
      match t
      case FromEvm(e) => if e.sender == a { HeadAndPrefix(e, EvmYields(rest, a), Bucket(l2, a), Bucket(l, a)); }
      case FromCosmos(c) => HeadAndPrefix(c, CosmosYields(rest), l2.cosmos, l.cosmos);
    }
  }

  lemma HeadAndPrefix<T>(x: T, xs: seq<T>, tail: seq<T>, ys: seq<T>)
    requires ys != [] && x == ys[0] && (tail == [] || tail == ys[1..]) && xs <= tail
    ensures [x] + xs <= ys
  {
  }

  lemma YieldsOfCons(t: Tx, rest: seq<Tx>, a: Account)
    ensures EvmYields([t] + rest, a) ==
      if t.FromEvm? && t.evm.sender == a then [t.evm] + EvmYields(rest, a) else EvmYields(rest, a)
    ensures CosmosYields([t] + rest) == if t.FromCosmos? then [t.cosmos] + CosmosYields(rest) else CosmosYields(rest)
  {
    assert ([t] + rest)[1..] == rest;
  }

  /** Hence nothing is handed out twice: the yields carry no transaction more
      often than the pending lanes do. */
  lemma {:induction false} NothingTwice(p: Params, l: Lanes, ops: seq<Op>, i: nat, j: nat)
    requires ValidLane(l.evm) && PopsOnEvmOnly(p, l, ops)
    requires Distinct(l.cosmos)
    requires i < j < |Run(p, l, ops)|
    ensures Run(p, l, ops)[i] != Run(p, l, ops)[j]
    decreases ops
  {
    hide Current, AfterTx, Advance, PopAccount, ValidLane;
    var t := Current(p, l).value;
    CurrentIsHead(p, l);
    NextEffect(p, l, 0);
    PopEffect(p, l, 0);
    var l2 := Do(ops[0], AfterTx(p, l));
    assert Run(p, l, ops) == [t] + Run(p, l2, ops[1..]);
    if i > 0 {
      NothingTwice(p, l2, ops[1..], i - 1, j - 1);
    } else {
      FirstNotAgain(p, l, ops, j - 1);
    }
  }

  /** Whether two of the yields are equal. */
  ghost predicate Repeats(ys: seq<Tx>) {
    exists i, j :: 0 <= i < j < |ys| && ys[i] == ys[j]
  }

  /** The client's last operation has no effect on what it has seen. */
  lemma {:induction false} LastOpUnseen(p: Params, l: Lanes, ops: seq<Op>, last: Op)
    requires ops != []
    ensures Run(p, l, ops) == Run(p, l, ops[..|ops| - 1] + [last])
    ensures PopsOnEvmOnly(p, l, ops[..|ops| - 1]) ==> PopsOnEvmOnly(p, l, ops[..|ops| - 1] + [NextOp])
    decreases ops
  {
    hide Current, AfterTx, Do;
    var other, steady := ops[..|ops| - 1] + [last], ops[..|ops| - 1] + [NextOp];
    if |ops| == 1 {
      assert other[1..] == [] && steady[1..] == [] && ops[1..] == [];
    } else {
      assert other[1..] == ops[1..][..|ops[1..]| - 1] + [last];
      assert steady[1..] == ops[1..][..|ops[1..]| - 1] + [NextOp];
      assert ops[..|ops| - 1][1..] == ops[1..][..|ops[1..]| - 1];
      if Current(p, l).Some? {
        LastOpUnseen(p, Do(ops[0], AfterTx(p, l)), ops[1..], last);
      }
    }
  }

  /** A pop on a Cosmos head, other than as the last operation, shows it again. */
  lemma {:induction false} StrayPopRepeats(p: Params, l: Lanes, ops: seq<Op>) returns (i: nat)
    requires ValidLane(l.evm) && ops != [] && !PopsOnEvmOnly(p, l, ops[..|ops| - 1])
    ensures i + 1 < |Run(p, l, ops)| && Run(p, l, ops)[i] == Run(p, l, ops)[i + 1]
    decreases ops
  {
    hide Current, AfterTx, Advance, PopAccount, ValidLane;
    var l2 := Do(ops[0], AfterTx(p, l));
    var init, rest := ops[..|ops| - 1], ops[1..];
    assert init[1..] == rest[..|rest| - 1] && init[0] == ops[0];
    if ops[0] == PopOp && !AfterTx(p, l).fromEvm {
      PopRepeatsUnlessEvm(p, l);
      assert Run(p, l2, rest) == [Current(p, l2).value] + Run(p, Do(rest[0], AfterTx(p, l2)), rest[1..]);
      i := 0;
    } else {
      NextEffect(p, l, 0);
      PopEffect(p, l, 0);
      i := StrayPopRepeats(p, l2, rest);
      assert Run(p, l, ops) == [Current(p, l).value] + Run(p, l2, rest);
      i := i + 1;
    }
  }

  /** The guard is exact: a client sees no transaction twice if and only if it
      makes no pop on a Cosmos head, except perhaps as its last operation. */
  lemma RepeatsIffStrayPop(p: Params, l: Lanes, ops: seq<Op>)
    requires ValidLane(l.evm) && Distinct(l.cosmos) && ops != []
    ensures Repeats(Run(p, l, ops)) <==> !PopsOnEvmOnly(p, l, ops[..|ops| - 1])
  {
    hide Run, PopsOnEvmOnly, ValidLane, Distinct;
    if !PopsOnEvmOnly(p, l, ops[..|ops| - 1]) {
      var i := StrayPopRepeats(p, l, ops);
    } else {
      var steady := ops[..|ops| - 1] + [NextOp];
      LastOpUnseen(p, l, ops, NextOp);
      var ys := Run(p, l, steady);
      forall i: nat, j: nat | i < j < |ys| ensures ys[i] != ys[j] { NothingTwice(p, l, steady, i, j); }
    }
  }

  lemma FirstNotAgain(p: Params, l: Lanes, ops: seq<Op>, j: nat)
    requires ValidLane(l.evm) && PopsOnEvmOnly(p, l, ops) && ops != [] && Current(p, l).Some?
    requires Distinct(l.cosmos)
    requires j < |Run(p, Do(ops[0], AfterTx(p, l)), ops[1..])|
    ensures Run(p, Do(ops[0], AfterTx(p, l)), ops[1..])[j] != Current(p, l).value
  {
    hide Current, AfterTx, Advance, PopAccount, ValidLane, Run, EvmYields, CosmosYields;
    var t := Current(p, l).value;
    var a := if t.FromEvm? then t.evm.sender else 0;
    CurrentIsHead(p, l);
    NextEffect(p, l, a);
    PopEffect(p, l, a);
    var l2 := Do(ops[0], AfterTx(p, l));
    var rest := Run(p, l2, ops[1..]);
    YieldsArePrefixes(p, l2, ops[1..], a);
    YieldInProjection(rest, j);
    BucketDistinct(l, a);
    if t.FromEvm? {
      HeadNotInTail(EvmYields(rest, a), Bucket(l, a));
    } else {
      HeadNotInTail(CosmosYields(rest), l.cosmos);
    }
  }

  lemma HeadNotInTail<T>(xs: seq<T>, ys: seq<T>)
    requires Distinct(ys)
    ensures ys != [] && xs <= ys[1..] ==> ys[0] !in xs
    ensures ys != [] && xs == [] ==> ys[0] !in xs
  {
    if ys != [] && xs <= ys[1..] {
      forall i | 0 <= i < |xs| ensures xs[i] != ys[0] { assert xs[i] == ys[i + 1]; }
    }
  }

  lemma {:induction false} YieldInProjection(ys: seq<Tx>, i: nat)
    requires i < |ys|
    ensures match ys[i] case FromEvm(e) => e in EvmYields(ys, e.sender) case FromCosmos(c) => c in CosmosYields(ys)
  {
    if i > 0 {
      YieldInProjection(ys[1..], i - 1);
    }
  }

  lemma BucketDistinct(l: Lanes, a: Account)
    requires ValidLane(l.evm)
    ensures Distinct(Bucket(l, a))
  {
    if a in l.evm {
      assert ValidBucket(l.evm[a], a);
    }
  }

  // ---------- draining with Next() ----------

  ghost function Nexts(n: nat): seq<Op> { seq(n, _ => NextOp) }

  lemma QuotientAtLeast(fee: nat, gas: positive, m: nat)
    ensures fee / gas >= m <==> fee >= m * gas
  {
    var q := fee / gas;
    assert fee == q * gas + fee % gas;
    if q >= m { MulOrder(m, q, gas); } else { MulOrder(q + 1, m, gas); assert (q + 1) * gas == q * gas + gas; }
  }

  /** The fee that counts is the amount of the last coin in the bond denomination. */
  lemma {:induction false} BondFeeIsLast(denom: string, fees: seq<Coin>, i: nat)
    requires i < |fees| && fees[i].denom == denom
    requires forall j :: i < j < |fees| ==> fees[j].denom != denom
    ensures BondFee(denom, fees) == fees[i].amount
    decreases |fees|
  {
    if i < |fees| - 1 {
      BondFeeIsLast(denom, fees[..|fees| - 1], i);
    }
  }

  /** Coins in other denominations do not count at all. */
  lemma {:induction false} NoBondFee(denom: string, fees: seq<Coin>)
    requires forall c <- fees :: c.denom != denom
    ensures BondFee(denom, fees) == 0
    decreases |fees|
  {
    if fees != [] {
      NoBondFee(denom, fees[..|fees| - 1]);
    }
  }

  /** A Cosmos transaction pays for at least `tip` per unit of gas on top of the base
      fee and one more, and not so much that the price leaves 256 bits. */
  predicate Outbids(p: Params, tx: CosmosTx, tip: nat) {
    var limit := 0x1_0000000000000000_0000000000000000_0000000000000000_0000000000000000;
    var base := if p.baseFee.Some? && p.baseFee.value < limit then p.baseFee.value else 0;
    && tx.fees.Some?
    && (base + tip + 1) * tx.gas <= BondFee(p.bondDenom, tx.fees.value) < limit * tx.gas
  }

  /** The comparison of lanes in terms of fees. */
  lemma CosmosOutbidsIff(p: Params, tx: CosmosTx, tip: nat)
    ensures CosmosTip(p, tx) > tip <==> Outbids(p, tx, tip)
  {
    if tx.fees.Some? {
      var base := if p.baseFee.Some? && p.baseFee.value < UINT256 then p.baseFee.value else 0;
      var fee := BondFee(p.bondDenom, tx.fees.value);
      hide BondFee;
      QuotientAtLeast(fee, tx.gas, base + tip + 1);
      QuotientAtLeast(fee, tx.gas, UINT256);
    }
  }

  /** The head of account a's bucket is the best: the highest tip, and among equals
      the lowest rank. */
  ghost predicate BestHead(lane: EvmLane, a: Account) {
    && a in lane && lane[a] != []
    && forall b :: b in lane && b != a && lane[b] != [] ==>
         || lane[a][0].tip > lane[b][0].tip
         || (lane[a][0].tip == lane[b][0].tip && lane[a][0].rank < lane[b][0].rank)
  }

  /** What Tx() hands out, exactly: the best bucket head if it converts and the Cosmos
      head does not outbid it, else the Cosmos head; and the cached lane says which. */
  lemma HandsOutExactly(p: Params, l: Lanes)
    requires ValidLane(l.evm)
    ensures l.evm == map[] ==> Current(p, l) == if l.cosmos == [] then None else Some(FromCosmos(l.cosmos[0]))
    ensures l.evm != map[] ==> exists a: Account :: BestHead(l.evm, a)
    ensures forall a: Account :: BestHead(l.evm, a) ==>
      var e := l.evm[a][0];
      Current(p, l) ==
        if e.converts && (l.cosmos == [] || !Outbids(p, l.cosmos[0], e.tip)) then Some(FromEvm(e))
        else if l.cosmos == [] then None
        else Some(FromCosmos(l.cosmos[0]))
    ensures l.evm != map[] || l.cosmos != [] ==>
      AfterTx(p, l) == l.(fromEvm := Current(p, l).Some? && Current(p, l).value.FromEvm?)
  {
    hide CosmosTip, Outbids, BestHead, ValidLane, Top, IsTop;
    if l.evm != map[] {
      TopIsBest(l.evm);
      if l.cosmos != [] { CosmosOutbidsIff(p, l.cosmos[0], HeadTx(l.evm).tip); }
    }
    forall a: Account | BestHead(l.evm, a) ensures l.evm != map[] && a == Top(l.evm) {
      BestIsTop(l.evm, a);
    }
  }

  lemma TopIsBest(lane: EvmLane)
    requires ValidLane(lane) && lane != map[]
    ensures BestHead(lane, Top(lane)) && lane[Top(lane)] != []
  {
    TopExists(lane);
    assert ValidBucket(lane[Top(lane)], Top(lane));
  }

  lemma BestIsTop(lane: EvmLane, a: Account)
    requires BestHead(lane, a)
    ensures lane != map[] && a == Top(lane) && a in lane && lane[a] != []
  {
    assert IsTop(lane, a);
    TopUnique(lane, a);
  }

  /** A Cosmos head that pays nothing in the bond denomination, or carries no fees at
      all, is never handed out before a best EVM head that converts. */
  lemma UnpaidNeverFirst(p: Params, l: Lanes, a: Account)
    requires ValidLane(l.evm) && BestHead(l.evm, a) && l.evm[a][0].converts && l.cosmos != []
    requires var fees := l.cosmos[0].fees; fees.Some? ==> forall c <- fees.value :: c.denom != p.bondDenom
    ensures Current(p, l) == Some(FromEvm(l.evm[a][0]))
  {
    BestIsTop(l.evm, a);
    hide Current, AfterTx, ValidLane, BestHead;
    if l.cosmos[0].fees.Some? { NoBondFee(p.bondDenom, l.cosmos[0].fees.value); }
    NotOutbid(p, l.cosmos[0], l.evm[a][0].tip);
    HandsOutExactly(p, l);
  }

  lemma NotOutbid(p: Params, tx: CosmosTx, tip: nat)
    requires tx.fees.Some? ==> BondFee(p.bondDenom, tx.fees.value) == 0
    ensures !Outbids(p, tx, tip)
  {
    var base := if p.baseFee.Some? && p.baseFee.value < UINT256 then p.baseFee.value else 0;
    MulOrder(1, base + tip + 1, tx.gas);
  }

  ghost predicate AllConvert(l: Lanes) {
    forall a :: a in l.evm ==> forall x <- l.evm[a] :: x.converts
  }

  ghost predicate DrainsAll(p: Params, l: Lanes, n: nat) {
    && CosmosYields(Run(p, l, Nexts(n))) == l.cosmos
    && forall a :: EvmYields(Run(p, l, Nexts(n)), a) == Bucket(l, a)
  }

  /** The pending EVM transactions. */
  ghost function Pending(lane: EvmLane): set<EvmTx> {
    set a, x | a in lane && x in lane[a] :: x
  }

  ghost function Size(l: Lanes): nat { |Pending(l.evm)| + |l.cosmos| }

  /** Next() and the builder's guarded pop both strictly shrink what is pending;
      Next() by exactly the transaction handed out. */
  lemma StepShrinks(p: Params, l: Lanes)
    requires ValidLane(l.evm) && Current(p, l).Some?
    ensures Size(Advance(AfterTx(p, l))) == Size(l) - 1
    ensures AfterTx(p, l).fromEvm ==> Size(PopAccount(AfterTx(p, l))) < Size(l)
  {
    CurrentIsHead(p, l);
    if AfterTx(p, l).fromEvm {
      var e := Current(p, l).value.evm;
      var a := e.sender;
      ShiftPending(l.evm, a);
      var popped := Pending(l.evm - {a});
      assert popped <= Pending(l.evm) - {e} by { PopPending(l.evm, a); }
      SubsetSize(popped, Pending(l.evm) - {e});
    }
  }

  lemma SubsetSize<T>(x: set<T>, y: set<T>)
    requires x <= y
    ensures |x| <= |y|
  {
    var z := y - x;
    assert y == x + z;
  }

  lemma ShiftPending(lane: EvmLane, a: Account)
    requires ValidLane(lane) && a in lane
    ensures lane[a] != [] && lane[a][0] in Pending(lane)
    ensures Pending(DropHead(lane, a)) == Pending(lane) - {lane[a][0]}
  {
    assert ValidBucket(lane[a], a);
    var e := lane[a][0];
    assert e in lane[a];
    var after := DropHead(lane, a);
    forall x | x in Pending(lane) && x != e ensures x in Pending(after) {
      var b :| b in lane && x in lane[b];
      if b == a { assert x in lane[a][1..]; assert x in after[a]; } else { assert x in after[b]; }
    }
    forall x | x in Pending(after) ensures x in Pending(lane) && x != e {
      var b :| b in after && x in after[b];
      assert ValidBucket(lane[b], b);
      assert x in lane[b];
    }
  }

  lemma PopPending(lane: EvmLane, a: Account)
    requires ValidLane(lane) && a in lane
    ensures lane[a] != [] && Pending(lane - {a}) <= Pending(lane) - {lane[a][0]}
  {
    assert ValidBucket(lane[a], a);
    forall x | x in Pending(lane - {a}) ensures x in Pending(lane) && x != lane[a][0] {
      var b :| b in lane - {a} && x in lane[b];
      assert ValidBucket(lane[b], b);
    }
  }

  lemma EmptyIsExhausted(p: Params, l: Lanes)
    requires ValidLane(l.evm)
    ensures Size(l) == 0 ==> l.evm == map[] && l.cosmos == []
    ensures Exhausted(l) <==> l.evm == map[] && l.cosmos == []
    ensures AllConvert(l) ==> (Current(p, l).None? <==> Exhausted(l))
  {
    if l.evm != map[] {
      TopExists(l.evm);
      ShiftPending(l.evm, Top(l.evm));
      assert l.evm[Top(l.evm)][0] in l.evm[Top(l.evm)];
    }
  }

  /** If every EVM transaction converts, a client that only calls Next() is given
      every pending transaction, each lane in its own order. */
  lemma {:induction false} DrainComplete(p: Params, l: Lanes, n: nat, a: Account)
    requires ValidLane(l.evm) && AllConvert(l) && n >= Size(l)
    ensures CosmosYields(Run(p, l, Nexts(n))) == l.cosmos
    ensures EvmYields(Run(p, l, Nexts(n)), a) == Bucket(l, a)
    decreases n
  {
    hide Current, AfterTx, Advance, PopAccount, ValidLane, Size, AllConvert, Nexts, EvmYields, CosmosYields;
    EmptyIsExhausted(p, l);
    YieldsOfNone(a);
    if Current(p, l).Some? {
      var t, l2 := Current(p, l).value, Advance(AfterTx(p, l));
      StepShrinks(p, l);
      CurrentIsHead(p, l);
      NextEffect(p, l, a);
      NextsConvert(p, l);
      NextsStep(n);
      DrainComplete(p, l2, n - 1, a);
      var rest := Run(p, l2, Nexts(n - 1));
      assert Run(p, l, Nexts(n)) == [t] + rest;
      YieldsOfCons(t, rest, a);
      hide Run;
      match t
      case FromEvm(e) => if e.sender == a { HeadAndTail(Bucket(l, a)); }
      case FromCosmos(c) => HeadAndTail(l.cosmos);
    }
  }

  lemma HeadAndTail<T>(s: seq<T>)
    requires s != []
    ensures s == [s[0]] + s[1..]
  {
  }

  lemma YieldsOfNone(a: Account)
    ensures EvmYields([], a) == [] && CosmosYields([]) == []
  {
  }

  lemma NextsStep(n: nat)
    ensures n > 0 ==> Nexts(n) != [] && Nexts(n)[0] == NextOp && Nexts(n)[1..] == Nexts(n - 1)
  {
  }

  lemma NextsConvert(p: Params, l: Lanes)
    requires ValidLane(l.evm) && AllConvert(l) && Current(p, l).Some?
    ensures AllConvert(Advance(AfterTx(p, l)))
  {
    var l2 := Advance(AfterTx(p, l));
    forall b, x | b in l2.evm && x in l2.evm[b] ensures x.converts {
      NextEffect(p, l, b);
      assert x in Bucket(l, b);
    }
  }

  lemma {:induction false} YieldsConvert(p: Params, l: Lanes, ops: seq<Op>, t: EvmTx)
    ensures FromEvm(t) in Run(p, l, ops) ==> t.converts
    decreases ops
  {
    if ops != [] && Current(p, l).Some? {
      YieldsConvert(p, Do(ops[0], AfterTx(p, l)), ops[1..], t);
    }
  }

  lemma {:induction false} ProjectionInYields(ys: seq<Tx>, e: EvmTx, a: Account)
    ensures e in EvmYields(ys, a) ==> FromEvm(e) in ys
  {
    if ys != [] {
      ProjectionInYields(ys[1..], e, a);
    }
  }

  /** A drain is complete exactly when every pending EVM transaction converts. */
  lemma DrainsIffAllConvert(p: Params, l: Lanes, n: nat)
    requires ValidLane(l.evm) && n >= Size(l)
    ensures DrainsAll(p, l, n) <==> AllConvert(l)
  {
    if AllConvert(l) {
      forall a ensures EvmYields(Run(p, l, Nexts(n)), a) == Bucket(l, a) { DrainComplete(p, l, n, a); }
      DrainComplete(p, l, n, 0);
    }
    if DrainsAll(p, l, n) {
      forall a, x | a in l.evm && x in l.evm[a] ensures x.converts {
        assert x in Bucket(l, a);
        ProjectionInYields(Run(p, l, Nexts(n)), x, a);
        YieldsConvert(p, l, Nexts(n), x);
      }
    }
  }

  /** What a bucket head that does not convert costs: while it is on top, no EVM
      transaction of any sender is handed out, and the run ends with the Cosmos lane. */
  lemma {:induction false} StuckHeadHidesEvmLane(p: Params, l: Lanes, n: nat)
    requires ValidLane(l.evm) && l.evm != map[] && !HeadConverts(l.evm)
    ensures var shown := if n < |l.cosmos| then n else |l.cosmos|;
      Run(p, l, Nexts(n)) == seq(shown, i requires 0 <= i < |l.cosmos| => FromCosmos(l.cosmos[i]))
    decreases n
  {
    hide Current, AfterTx, Advance, ValidLane, HeadConverts;
    StuckStep(p, l);
    if n > 0 && l.cosmos != [] {
      var l2 := Advance(AfterTx(p, l));
      assert Nexts(n)[1..] == Nexts(n - 1);
      StuckHeadHidesEvmLane(p, l2, n - 1);
      assert Run(p, l, Nexts(n)) == [FromCosmos(l.cosmos[0])] + Run(p, l2, Nexts(n - 1));
    }
  }

  lemma StuckStep(p: Params, l: Lanes)
    requires ValidLane(l.evm) && l.evm != map[] && !HeadConverts(l.evm)
    ensures Current(p, l) == if l.cosmos == [] then None else Some(FromCosmos(l.cosmos[0]))
    ensures l.cosmos != [] ==> var l2 := Advance(AfterTx(p, l)); l2.evm == l.evm && l2.cosmos == l.cosmos[1..]
  {
    TopExists(l.evm);
  }

  ghost predicate HeadConverts(lane: EvmLane)
    requires lane != map[]
  {
    lane[Top(lane)] != [] && lane[Top(lane)][0].converts
  }
}
