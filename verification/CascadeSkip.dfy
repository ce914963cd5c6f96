/** The cascade skip against the plain handler that always calls Next(): a
    simulation over whole runs. The plain run still visits the transactions of
    popped buckets; they have to be refused whenever it does. */
module CascadeSkip {
  import opened Common
  import opened MempoolIterator
  import opened IteratorRuns
  import opened BuilderLaws
  import P = Proposal

  ghost predicate IsPending(l: Lanes, t: Tx) {
    match t
    case FromEvm(e) => e in Bucket(l, e.sender)
    case FromCosmos(c) => c in l.cosmos
  }

  // ---------- premises ----------

  /** A refused transaction leaves the verifier as it was. */
  ghost predicate RefusalsLeaveNoTrace<V(!new), S>(h: P.Host<V, S>) {
    forall v, t :: h.verify(v, t).1.Refused? ==> h.verify(v, t).0 == v
  }

  ghost predicate SignersKnown<V, S>(h: P.Host<V, S>, l: Lanes) {
    forall t :: IsPending(l, t) ==> h.unordered(t) || h.signers(t).Some?
  }

  ghost predicate IdsDistinct(l: Lanes) {
    forall i, j :: 0 <= i < j < |l.cosmos| ==> l.cosmos[i].id != l.cosmos[j].id
  }

  /** The lanes a proposal starts from: heads totally ordered, every EVM
      transaction convertible, signers extractable. */
  ghost predicate Ready<V, S>(h: P.Host<V, S>, l: Lanes) {
    ValidLane(l.evm) && AllConvert(l) && IdsDistinct(l) && SignersKnown(h, l)
  }

  /** The verifier's state after it was asked about ts in turn. */
  ghost function Replay<V, S>(h: P.Host<V, S>, v: V, ts: seq<Tx>): V {
    if ts == [] then v else Replay(h, h.verify(v, ts[0]).0, ts[1..])
  }

  ghost predicate AllPending(l: Lanes, ts: seq<Tx>) {
    forall t <- ts :: IsPending(l, t)
  }

  /** x is refused now and after any verification of transactions pending in l. */
  ghost predicate Dead<V, S>(h: P.Host<V, S>, l: Lanes, v: V, x: Tx) {
    forall ts {:trigger Replay(h, v, ts)} :: AllPending(l, ts) ==> h.verify(Replay(h, v, ts), x).1.Refused?
  }

  ghost predicate BucketDead<V, S>(h: P.Host<V, S>, l: Lanes, v: V, bucket: seq<EvmTx>) {
    forall e <- bucket :: Dead(h, l, v, FromEvm(e))
  }

  /** The move the skipping builder makes on its current transaction. */
  ghost function MoveNow<V, S>(h: P.Host<V, S>, b: P.Builder<V, S>, t: Tx): P.Move {
    P.Consider(h, true, AfterTx(h.params, b.lanes).fromEvm, b.block, t).1
  }

  /** Along the run of the skipping builder, whenever it pops a bucket, the
      transactions behind its head are dead from then on. */
  ghost predicate SafePops<V(!new), S(!new)>(h: P.Host<V, S>, b: P.Builder<V, S>)
    decreases P.MAX_ITERATIONS - b.iterations
  {
    P.PassCounts(h, true, b);
    match P.Pass(h, true, b)
    case Continue(b') =>
      var t := Current(h.params, b.lanes).value;
      && (t.FromEvm? && MoveNow(h, b, t) == P.Pop && |Bucket(b.lanes, t.evm.sender)| > 1
          ==> BucketDead(h, b'.lanes, b'.block.v, Bucket(b.lanes, t.evm.sender)[1..]))
      && SafePops(h, b')
    case _ => true
  }

  // ---------- pending only shrinks ----------

  lemma AdvancePending(p: Params, l: Lanes, t: Tx)
    requires ValidLane(l.evm) && Current(p, l).Some?
    ensures IsPending(Advance(AfterTx(p, l)), t) ==> IsPending(l, t)
    ensures IsPending(PopAccount(AfterTx(p, l)), t) ==> IsPending(l, t)
    ensures IsPending(l, Current(p, l).value)
  {
    hide Current, AfterTx, Advance, PopAccount, ValidLane;
    CurrentIsHead(p, l);
    var a := if t.FromEvm? then t.evm.sender else 0;
    NextEffect(p, l, a);
    PopEffect(p, l, a);
  }

  lemma ReadyAfter<V, S>(h: P.Host<V, S>, l: Lanes)
    requires Ready(h, l) && Current(h.params, l).Some?
    ensures Ready(h, Advance(AfterTx(h.params, l))) && Ready(h, PopAccount(AfterTx(h.params, l)))
  {
    var p := h.params;
    var l1 := AfterTx(p, l);
    CurrentIsHead(p, l);
    AdvanceValid(l1);
    forall t ensures (IsPending(Advance(l1), t) || IsPending(PopAccount(l1), t)) ==> IsPending(l, t) {
      AdvancePending(p, l, t);
    }
    Converting(l, Advance(l1));
    Converting(l, PopAccount(l1));
  }

  lemma Converting(l: Lanes, l': Lanes)
    requires ValidLane(l.evm) && ValidLane(l'.evm) && AllConvert(l)
    requires forall t :: IsPending(l', t) ==> IsPending(l, t)
    ensures AllConvert(l')
  {
    forall a, x | a in l'.evm && x in l'.evm[a] ensures x.converts {
      assert ValidBucket(l'.evm[a], a);
      assert IsPending(l', FromEvm(x));
    }
  }

  lemma DeadPersists<V, S>(h: P.Host<V, S>, l: Lanes, l': Lanes, v: V, t: Tx, x: Tx)
    requires Dead(h, l, v, x) && IsPending(l, t)
    requires forall u :: IsPending(l', u) ==> IsPending(l, u)
    ensures Dead(h, l', v, x) && Dead(h, l', h.verify(v, t).0, x)
  {
    forall ts | AllPending(l', ts) ensures h.verify(Replay(h, v, ts), x).1.Refused? {
      assert AllPending(l, ts);
    }
    forall ts | AllPending(l', ts) ensures h.verify(Replay(h, h.verify(v, t).0, ts), x).1.Refused? {
      assert AllPending(l, [t] + ts);
      assert ([t] + ts)[1..] == ts;
      assert Replay(h, v, [t] + ts) == Replay(h, h.verify(v, t).0, ts);
    }
  }

  // ---------- the relation between the two runs ----------

  /** The plain lanes hold the skipping lanes plus buckets of dead transactions. */
  ghost predicate LanesSim<V(!new), S(!new)>(h: P.Host<V, S>, plain: Lanes, skip: Lanes, v: V) {
    && plain.cosmos == skip.cosmos
    && (forall a :: a in skip.evm ==> a in plain.evm && plain.evm[a] == skip.evm[a])
    && (forall a :: a in plain.evm && a !in skip.evm ==> BucketDead(h, skip, v, plain.evm[a]))
  }

  /** No pending Cosmos transaction is the one seen in the last pass. */
  ghost predicate Fresh<V, S>(b: P.Builder<V, S>) {
    b.prev.Some? ==> forall c <- b.lanes.cosmos :: c.id != b.prev.value
  }

  ghost predicate SameBlock<V, S>(x: P.Block<V, S>, y: P.Block<V, S>) {
    x == y.(invalid := x.invalid)
  }

  ghost predicate Sim<V(!new), S(!new)>(h: P.Host<V, S>, plain: P.Builder<V, S>, skip: P.Builder<V, S>) {
    && LanesSim(h, plain.lanes, skip.lanes, skip.block.v)
    && SameBlock(plain.block, skip.block)
    && skip.iterations <= plain.iterations <= P.MAX_ITERATIONS
    && Fresh(plain) && Fresh(skip)
    && Ready(h, plain.lanes) && Ready(h, skip.lanes)
  }

  /** When the plain head is not a dead transaction, both iterators show it. */
  lemma HeadsAgree(p: Params, plain: Lanes, skip: Lanes)
    requires ValidLane(plain.evm) && ValidLane(skip.evm) && AllConvert(plain)
    requires plain.cosmos == skip.cosmos
    requires forall a :: a in skip.evm ==> a in plain.evm && plain.evm[a] == skip.evm[a]
    requires Current(p, plain).Some?
    requires Current(p, plain).value.FromEvm? ==> Current(p, plain).value.evm.sender in skip.evm
    ensures Current(p, skip) == Current(p, plain)
  {
    hide ValidLane, IsTop, CosmosTip;
    CurrentIsHead(p, plain);
    if plain.evm != map[] { HeadConvertible(plain); }
    if skip.evm != map[] { TopsAgree(plain.evm, skip.evm); }
  }

  lemma HeadConvertible(l: Lanes)
    requires ValidLane(l.evm) && AllConvert(l) && l.evm != map[]
    ensures l.evm[Top(l.evm)] != [] && l.evm[Top(l.evm)][0].converts
  {
    TopExists(l.evm);
    assert l.evm[Top(l.evm)][0] in l.evm[Top(l.evm)];
  }

  /** The heap top survives removing other buckets, and no other top exceeds it. */
  lemma TopsAgree(lane: EvmLane, sub: EvmLane)
    requires ValidLane(lane) && ValidLane(sub) && sub != map[]
    requires forall a :: a in sub ==> a in lane && lane[a] == sub[a]
    ensures lane != map[] && lane[Top(lane)] != [] && sub[Top(sub)] != []
    ensures Top(lane) in sub ==> Top(sub) == Top(lane)
    ensures sub[Top(sub)][0].tip <= lane[Top(lane)][0].tip
  {
    var k :| k in sub;
    assert k in lane;
    TopExists(lane);
    TopExists(sub);
    if Top(lane) in sub {
      assert IsTop(sub, Top(lane));
      TopUnique(sub, Top(lane));
    } else {
      assert Top(sub) in lane && Top(sub) != Top(lane);
    }
  }

  /** A fresh builder with distinct Cosmos transactions never forces Next(). */
  lemma NeverStuck<V, S>(h: P.Host<V, S>, cascade: bool, b: P.Builder<V, S>)
    requires ValidLane(b.lanes.evm) && Fresh(b) && Current(h.params, b.lanes).Some? && b.iterations < P.MAX_ITERATIONS
    ensures var t := Current(h.params, b.lanes).value;
      var l := AfterTx(h.params, b.lanes);
      var (k, move) := P.Consider(h, cascade, l.fromEvm, b.block, t);
      var b1 := P.Builder(l, k, b.iterations + 1, P.Identity(t), 0);
      P.Pass(h, cascade, b) == match move
        case Next => P.Continue(b1.(lanes := Advance(l)))
        case Pop => P.Continue(b1.(lanes := PopAccount(l)))
        case Stop => P.Finish(b1)
        case Abort => P.Fail
  {
    hide AfterTx, Current, Advance, PopAccount, ValidLane, P.Consider;
    CurrentIsHead(h.params, b.lanes);
  }

  lemma FreshAfter<V, S>(h: P.Host<V, S>, b: P.Builder<V, S>, k: P.Block<V, S>, n: nat)
    requires Ready(h, b.lanes) && Current(h.params, b.lanes).Some?
    ensures var l := AfterTx(h.params, b.lanes);
      var id := P.Identity(Current(h.params, b.lanes).value);
      && Fresh(P.Builder(Advance(l), k, n, id, 0))
      && (l.fromEvm ==> Fresh(P.Builder(PopAccount(l), k, n, id, 0)))
  {
    hide AfterTx, Current, PopAccount, Advance, ValidLane, SignersKnown, AllConvert;
    var t := Current(h.params, b.lanes).value;
    CurrentIsHead(h.params, b.lanes);
    NextEffect(h.params, b.lanes, 0);
    if t.FromCosmos? {
      var rest := b.lanes.cosmos[1..];
      forall c | c in rest ensures c.id != t.cosmos.id {
        var i :| 0 <= i < |rest| && rest[i] == c;
        assert b.lanes.cosmos[i + 1] == c;
      }
    }
  }

  /** Both handlers treat a transaction alike, except that the skip pops where
      the plain one shifts. */
  lemma ConsiderAlike<V, S>(h: P.Host<V, S>, fromEvm: bool, x: P.Block<V, S>, y: P.Block<V, S>, t: Tx)
    requires SameBlock(x, y)
    ensures var (x', mx) := P.Consider(h, false, fromEvm, x, t);
      var (y', my) := P.Consider(h, true, fromEvm, y, t);
      && SameBlock(x', y')
      && (mx == my || (my == P.Pop && mx == P.Next && fromEvm))
      && (y'.v == y.v || y'.v == h.verify(y.v, t).0)
      && (h.unordered(t) || h.signers(t).Some? ==> mx != P.Abort)
      && mx != P.Pop
  {
  }

  /** The plain handler gets nothing from a transaction the verifier refuses. */
  lemma ConsiderDead<V, S>(h: P.Host<V, S>, fromEvm: bool, x: P.Block<V, S>, y: P.Block<V, S>, t: Tx)
    requires SameBlock(x, y) && h.verify(y.v, t).1.Refused? && h.verify(y.v, t).0 == y.v
    requires h.unordered(t) || h.signers(t).Some?
    ensures var (x', mx) := P.Consider(h, false, fromEvm, x, t);
      SameBlock(x', y) && mx == P.Next
  {
  }

  lemma ShiftDead<V(!new), S(!new)>(h: P.Host<V, S>, plain: Lanes, skip: Lanes, v: V)
    requires ValidLane(plain.evm) && LanesSim(h, plain, skip, v)
    requires Current(h.params, plain).Some? && Current(h.params, plain).value.FromEvm?
    requires Current(h.params, plain).value.evm.sender !in skip.evm
    ensures LanesSim(h, Advance(AfterTx(h.params, plain)), skip, v)
  {
    hide AfterTx, Current, ValidLane, Dead;
    CurrentIsHead(h.params, plain);
    var l := AfterTx(h.params, plain);
    var e := Current(h.params, plain).value.evm;
    var next := Advance(l);
    forall a | a in next.evm && a !in skip.evm ensures BucketDead(h, skip, v, next.evm[a]) {
      assert BucketDead(h, skip, v, plain.evm[a]);
      assert forall x <- next.evm[a] :: x in plain.evm[a];
    }
  }

  /** Both sides move past a common head; v' is the verifier's next state. */
  lemma ShiftBoth<V(!new), S(!new)>(h: P.Host<V, S>, plain: Lanes, skip: Lanes, v: V, v': V)
    requires ValidLane(plain.evm) && ValidLane(skip.evm) && LanesSim(h, plain, skip, v)
    requires Current(h.params, skip).Some? && Current(h.params, plain) == Current(h.params, skip)
    requires v' == v || v' == h.verify(v, Current(h.params, skip).value).0
    ensures LanesSim(h, Advance(AfterTx(h.params, plain)), Advance(AfterTx(h.params, skip)), v')
  {
    hide AfterTx, Current, ValidLane, Dead, IsPending;
    var t := Current(h.params, skip).value;
    CurrentIsHead(h.params, plain);
    CurrentIsHead(h.params, skip);
    var pl := Advance(AfterTx(h.params, plain));
    var sk := Advance(AfterTx(h.params, skip));
    PendingShrinks(h.params, skip);
    forall a | a in pl.evm && a !in sk.evm ensures BucketDead(h, sk, v', pl.evm[a]) {
      assert a !in skip.evm && pl.evm[a] == plain.evm[a];
      forall e | e in pl.evm[a] ensures Dead(h, sk, v', FromEvm(e)) {
        DeadPersists(h, skip, sk, v, t, FromEvm(e));
      }
    }
  }

  lemma PendingShrinks(p: Params, l: Lanes)
    requires ValidLane(l.evm) && Current(p, l).Some?
    ensures IsPending(l, Current(p, l).value)
    ensures forall u :: IsPending(Advance(AfterTx(p, l)), u) ==> IsPending(l, u)
    ensures forall u :: IsPending(PopAccount(AfterTx(p, l)), u) ==> IsPending(l, u)
  {
    hide Current, AfterTx, Advance, PopAccount, ValidLane, IsPending;
    forall u
      ensures IsPending(Advance(AfterTx(p, l)), u) ==> IsPending(l, u)
      ensures IsPending(PopAccount(AfterTx(p, l)), u) ==> IsPending(l, u)
    {
      AdvancePending(p, l, u);
    }
    AdvancePending(p, l, Current(p, l).value);
  }

  /** The plain side shifts, the skipping side pops the bucket. */
  lemma ShiftAgainstPop<V(!new), S(!new)>(h: P.Host<V, S>, plain: Lanes, skip: Lanes, v: V, v': V, e: EvmTx)
    requires ValidLane(plain.evm) && ValidLane(skip.evm) && LanesSim(h, plain, skip, v)
    requires Current(h.params, skip) == Some(FromEvm(e)) == Current(h.params, plain)
    requires v' == v || v' == h.verify(v, FromEvm(e)).0
    requires |Bucket(skip, e.sender)| > 1 ==>
      BucketDead(h, PopAccount(AfterTx(h.params, skip)), v', Bucket(skip, e.sender)[1..])
    ensures LanesSim(h, Advance(AfterTx(h.params, plain)), PopAccount(AfterTx(h.params, skip)), v')
  {
    hide AfterTx, Current, ValidLane, Dead, IsPending;
    CurrentIsHead(h.params, plain);
    CurrentIsHead(h.params, skip);
    var pl := Advance(AfterTx(h.params, plain));
    var sk := PopAccount(AfterTx(h.params, skip));
    PendingShrinks(h.params, skip);
    forall a | a in pl.evm && a !in sk.evm ensures BucketDead(h, sk, v', pl.evm[a]) {
      if a != e.sender {
        assert a !in skip.evm && pl.evm[a] == plain.evm[a];
        forall x | x in pl.evm[a] ensures Dead(h, sk, v', FromEvm(x)) {
          DeadPersists(h, skip, sk, v, FromEvm(e), FromEvm(x));
        }
      }
    }
  }

  // ---------- the simulation ----------

  /** With known signers no run fails. */
  lemma {:induction false} NeverFails<V(!new), S(!new)>(h: P.Host<V, S>, cascade: bool, b: P.Builder<V, S>)
    requires Ready(h, b.lanes)
    ensures P.Run(h, cascade, b).Built?
    decreases P.MAX_ITERATIONS - b.iterations
  {
    hide AfterTx, Current, Advance, PopAccount, Ready, P.Consider;
    P.PassCounts(h, cascade, b);
    var c := Current(h.params, b.lanes);
    if c.Some? {
      NoAbort(h, cascade, AfterTx(h.params, b.lanes).fromEvm, b.block, c.value, b.lanes);
      ReadyAfter(h, b.lanes);
    }
    if P.Pass(h, cascade, b).Continue? {
      NeverFails(h, cascade, P.Pass(h, cascade, b).b);
    }
  }

  lemma NoAbort<V, S>(h: P.Host<V, S>, cascade: bool, fromEvm: bool, k: P.Block<V, S>, t: Tx, l: Lanes)
    requires Ready(h, l) && Current(h.params, l) == Some(t)
    ensures IsPending(l, t) && (h.unordered(t) || h.signers(t).Some?)
    ensures P.Consider(h, cascade, fromEvm, k, t).1 != P.Abort
  {
    AdvancePending(h.params, l, t);
  }

  lemma ExhaustedTogether<V(!new), S(!new)>(h: P.Host<V, S>, plain: P.Builder<V, S>, skip: P.Builder<V, S>)
    requires Sim(h, plain, skip) && Current(h.params, plain.lanes).None?
    ensures Current(h.params, skip.lanes).None?
    ensures P.Run(h, false, plain) == P.Built(plain) && P.Run(h, true, skip) == P.Built(skip)
  {
    EmptyIsExhausted(h.params, plain.lanes);
    EmptyIsExhausted(h.params, skip.lanes);
    assert forall a :: a in skip.lanes.evm ==> a in plain.lanes.evm;
  }

  /** The plain run visits a dead transaction: nothing changes but the lanes. */
  lemma DeadStep<V(!new), S(!new)>(h: P.Host<V, S>, plain: P.Builder<V, S>, skip: P.Builder<V, S>)
    requires RefusalsLeaveNoTrace(h) && Sim(h, plain, skip) && plain.iterations < P.MAX_ITERATIONS
    requires Current(h.params, plain.lanes).Some? && Current(h.params, plain.lanes).value.FromEvm?
    requires Current(h.params, plain.lanes).value.evm.sender !in skip.lanes.evm
    ensures P.Pass(h, false, plain).Continue?
    ensures Sim(h, P.Pass(h, false, plain).b, skip)
  {
    hide AfterTx, Current, Advance, PopAccount, ValidLane, AllConvert, IdsDistinct, IsPending, P.Consider;
    var t := Current(h.params, plain.lanes).value;
    var l := AfterTx(h.params, plain.lanes);
    CurrentIsHead(h.params, plain.lanes);
    NoAbort(h, false, l.fromEvm, plain.block, t, plain.lanes);
    assert h.verify(Replay(h, skip.block.v, []), t).1.Refused? by {
      assert BucketDead(h, skip.lanes, skip.block.v, plain.lanes.evm[t.evm.sender]);
      assert AllPending(skip.lanes, []);
    }
    ConsiderDead(h, l.fromEvm, plain.block, skip.block, t);
    NeverStuck(h, false, plain);
    ReadyAfter(h, plain.lanes);
    FreshAfter(h, plain, P.Consider(h, false, l.fromEvm, plain.block, t).0, plain.iterations + 1);
    ShiftDead(h, plain.lanes, skip.lanes, skip.block.v);
  }

  /** Both runs process the same transaction: they stop together or go on related. */
  lemma CommonStep<V(!new), S(!new)>(h: P.Host<V, S>, plain: P.Builder<V, S>, skip: P.Builder<V, S>)
    requires Sim(h, plain, skip) && SafePops(h, skip) && plain.iterations < P.MAX_ITERATIONS
    requires Current(h.params, plain.lanes).Some? && Current(h.params, skip.lanes) == Current(h.params, plain.lanes)
    ensures var x := P.Pass(h, false, plain); var y := P.Pass(h, true, skip);
      || (x.Finish? && y.Finish? && SameBlock(x.b.block, y.b.block))
      || (x.Continue? && y.Continue? && Sim(h, x.b, y.b) && SafePops(h, y.b))
  {
    hide AfterTx, Current, Advance, PopAccount, ValidLane, Ready, LanesSim, Fresh, P.Consider, BucketDead;
    var t := Current(h.params, plain.lanes).value;
    var l, k := AfterTx(h.params, plain.lanes), AfterTx(h.params, skip.lanes);
    SimFacts(h, plain, skip);
    CurrentIsHead(h.params, plain.lanes);
    CurrentIsHead(h.params, skip.lanes);
    NoAbort(h, false, l.fromEvm, plain.block, t, plain.lanes);
    ConsiderAlike(h, l.fromEvm, plain.block, skip.block, t);
    var (x, mx) := P.Consider(h, false, l.fromEvm, plain.block, t);
    var (y, my) := P.Consider(h, true, l.fromEvm, skip.block, t);
    NeverStuck(h, false, plain);
    NeverStuck(h, true, skip);
    ReadyAfter(h, plain.lanes);
    ReadyAfter(h, skip.lanes);
    FreshAfter(h, plain, x, plain.iterations + 1);
    FreshAfter(h, skip, y, skip.iterations + 1);
    ShiftBoth(h, plain.lanes, skip.lanes, skip.block.v, y.v);
    if my == P.Pop {
      ShiftAgainstPop(h, plain.lanes, skip.lanes, skip.block.v, y.v, t.evm);
    }
  }

  lemma SimFacts<V(!new), S(!new)>(h: P.Host<V, S>, plain: P.Builder<V, S>, skip: P.Builder<V, S>)
    requires Sim(h, plain, skip)
    ensures ValidLane(plain.lanes.evm) && ValidLane(skip.lanes.evm) && AllConvert(plain.lanes)
    ensures plain.lanes.cosmos == skip.lanes.cosmos
    ensures forall a :: a in skip.lanes.evm ==> a in plain.lanes.evm && plain.lanes.evm[a] == skip.lanes.evm[a]
  {
  }

  lemma {:induction false} Simulation<V(!new), S(!new)>(h: P.Host<V, S>, plain: P.Builder<V, S>, skip: P.Builder<V, S>)
    requires RefusalsLeaveNoTrace(h) && Sim(h, plain, skip) && SafePops(h, skip)
    ensures P.Run(h, false, plain).Built? && P.Run(h, true, skip).Built?
    ensures P.Run(h, false, plain).b.block.selected <= P.Run(h, true, skip).b.block.selected
    ensures plain.iterations + Size(plain.lanes) <= P.MAX_ITERATIONS ==>
              P.Run(h, false, plain).b.block.selected == P.Run(h, true, skip).b.block.selected
    decreases P.MAX_ITERATIONS - plain.iterations
  {
    hide AfterTx, Current, Advance, PopAccount, Size, P.Consider, LanesSim, Fresh, ValidLane, AllConvert, SafePops,
      IdsDistinct, SignersKnown, RefusalsLeaveNoTrace;
    P.PassCounts(h, false, plain);
    P.PassCounts(h, true, skip);
    SimFacts(h, plain, skip);
    NeverFails(h, true, skip);
    var c := Current(h.params, plain.lanes);
    if c.None? {
      ExhaustedTogether(h, plain, skip);
    } else if plain.iterations >= P.MAX_ITERATIONS {
      SelectedGrows(h, true, skip);
      StepShrinks(h.params, plain.lanes);
    } else if c.value.FromEvm? && c.value.evm.sender !in skip.lanes.evm {
      DeadStep(h, plain, skip);
      PassShrinks(h, false, plain);
      Simulation(h, P.Pass(h, false, plain).b, skip);
    } else {
      HeadsAgree(h.params, plain.lanes, skip.lanes);
      CommonStep(h, plain, skip);
      if P.Pass(h, false, plain).Continue? {
        PassShrinks(h, false, plain);
        Simulation(h, P.Pass(h, false, plain).b, P.Pass(h, true, skip).b);
      }
    }
  }

  lemma {:induction false} SelectedGrows<V, S>(h: P.Host<V, S>, cascade: bool, b: P.Builder<V, S>)
    ensures P.Run(h, cascade, b).Built? ==> b.block.selected <= P.Run(h, cascade, b).b.block.selected
    decreases P.MAX_ITERATIONS - b.iterations
  {
    hide AfterTx, Current, Advance, PopAccount, P.Consider;
    P.PassCounts(h, cascade, b);
    var c := Current(h.params, b.lanes);
    if c.Some? {
      BlockGrows(h, cascade, AfterTx(h.params, b.lanes).fromEvm, b.block, c.value);
    }
    if P.Pass(h, cascade, b).Continue? {
      SelectedGrows(h, cascade, P.Pass(h, cascade, b).b);
    }
  }

  /** The cascade skip only saves time. Whenever the buckets it pops are dead, the
      plain handler's selection is a prefix of the skipping handler's (they differ
      only where the plain one runs into the iteration cap), and the two are equal
      when no more than 8192 transactions are pending. */
  lemma CascadeOnlySavesTime<V(!new), S(!new)>(h: P.Host<V, S>, l: Lanes, v: V, s: S)
    requires RefusalsLeaveNoTrace(h) && Ready(h, l) && SafePops(h, P.Start(l, v, s))
    ensures var plain := P.Run(h, false, P.Start(l, v, s));
      var skip := P.Run(h, true, P.Start(l, v, s));
      && plain.Built? && skip.Built?
      && plain.b.block.selected <= skip.b.block.selected
      && (Size(l) <= 8192 ==> plain.b.block.selected == skip.b.block.selected)
  {
    hide P.Run, SafePops, Ready, Size, RefusalsLeaveNoTrace;
    Simulation(h, P.Start(l, v, s), P.Start(l, v, s));
  }
}
