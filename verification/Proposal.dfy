/** The proposal builder: walks the merged mempool iterator, checks signer
    sequences against what is already in the block, asks the verifier and the
    selector about each transaction, and drops a sender's whole EVM bucket on a
    permanent nonce error. */
module Proposal {
  import opened Common
  import opened MempoolIterator

  const MAX_INVALID_TXS: nat := 1024
  const MAX_ITERATIONS: nat := 8 * MAX_INVALID_TXS

  datatype SignerSeq = SignerSeq(signer: Account, sequence: uint64)

  datatype Verdict = Accepted | Refused(permanent: bool)

  /** The selector's answer: whether it took the transaction, and whether to stop. */
  datatype Choice<+S> = Choice(state: S, added: bool, stop: bool)

  /** What the handler is built around. Verifier and selector are state machines
      over arbitrary states V and S. */
  datatype Host<!V, !S> = Host(
    params: Params,
    unordered: Tx -> bool,
    signers: Tx -> Option<seq<SignerSeq>>,
    verify: (V, Tx) -> (V, Verdict),
    select: (S, Tx) -> Choice<S>)

  /** The block being built: sequences recorded per signer, the transactions the
      selector took, those to evict, and the states of verifier and selector. */
  datatype Block<V, S> = Block(
    seqs: map<Account, uint64>, selected: seq<Tx>, selectedNums: nat, invalid: seq<Tx>, v: V, s: S)

  /** The variables of the handler's loop; `prev` is the identity of the previous
      transaction (each wrapped EVM transaction is a new pointer). */
  datatype Builder<V, S> = Builder(lanes: Lanes, block: Block<V, S>, iterations: nat, prev: Option<nat>, sameCount: nat)

  /** How the loop goes on after a transaction. */
  datatype Move = Next | Pop | Stop | Abort

  datatype Outcome<V, S> = Continue(b: Builder<V, S>) | Finish(b: Builder<V, S>) | Fail

  datatype Proposed<V, S> = Built(b: Builder<V, S>) | Failed

  function EmptyBlock<V, S>(v: V, s: S): Block<V, S> { Block(map[], [], 0, [], v, s) }

  function Start<V, S>(l: Lanes, v: V, s: S): Builder<V, S> { Builder(l, EmptyBlock(v, s), 0, None, 0) }

  function Identity(t: Tx): Option<nat> {
    match t
    case FromEvm(_) => None
    case FromCosmos(c) => Some(c.id)
  }

  predicate SamePointer(prev: Option<nat>, t: Tx) { prev.Some? && prev == Identity(t) }

  // ---------- signer sequences ----------

  /** The loop over the signers: the sequences to record, or None when one does
      not follow the sequence already in the block. */
  function CheckSigners(seqs: map<Account, uint64>, sd: seq<SignerSeq>, acc: map<Account, uint64>)
    : Option<map<Account, uint64>>
    decreases sd
  {
    if sd == [] then Some(acc)
    else if sd[0].signer in seqs && (seqs[sd[0].signer] + 1) % TWO_64 != sd[0].sequence then None
    else CheckSigners(seqs, sd[1..], acc[sd[0].signer := sd[0].sequence])
  }

  function Before(x: uint64): uint64 { (x + TWO_64 - 1) % TWO_64 }

  /** The update after an offer: a taken transaction records its sequences; one
      refused for capacity records the sequence before, for new signers only. */
  function Record(seqs: map<Account, uint64>, m: map<Account, uint64>, grew: bool): map<Account, uint64> {
    if grew then seqs + m
    else (map a | a in m :: Before(m[a])) + seqs
  }

  // ---------- one pass of the loop ----------

  function Noted(invalid: seq<Tx>, t: Tx): seq<Tx> {
    if |invalid| < MAX_INVALID_TXS then invalid + [t] else invalid
  }

  /** From the verifier on; `m` holds the sequences to record. With `cascade`
      false this is the plain handler, which always calls Next(). */
  function Offer<V, S>(h: Host<V, S>, cascade: bool, fromEvm: bool, k: Block<V, S>, t: Tx, m: map<Account, uint64>)
    : (Block<V, S>, Move) {
    var (v', verdict) := h.verify(k.v, t);
    match verdict
    case Refused(permanent) =>
      (k.(v := v', invalid := Noted(k.invalid, t)), if cascade && fromEvm && permanent then Pop else Next)
    case Accepted =>
      var c := h.select(k.s, t);
      var taken := k.(v := v', s := c.state, selected := if c.added then k.selected + [t] else k.selected);
      if c.stop then (taken, Stop)
      else
        var seqs := if h.unordered(t) then k.seqs else Record(k.seqs, m, |taken.selected| != k.selectedNums);
        (taken.(seqs := seqs, selectedNums := |taken.selected|), Next)
  }

  /** What the loop does with one transaction. */
  function Consider<V, S>(h: Host<V, S>, cascade: bool, fromEvm: bool, k: Block<V, S>, t: Tx): (Block<V, S>, Move) {
    if h.unordered(t) then Offer(h, cascade, fromEvm, k, t, map[])
    else match h.signers(t)
      case None => (k, Abort)
      case Some(sd) =>
        match CheckSigners(k.seqs, sd, map[])
        case None => (k, Next)
        case Some(m) => Offer(h, cascade, fromEvm, k, t, m)
  }

  /** One pass of the loop. A transaction seen for the third time in a row is
      passed over without being looked at. */
  ghost function Pass<V, S>(h: Host<V, S>, cascade: bool, b: Builder<V, S>): Outcome<V, S> {
    var l := AfterTx(h.params, b.lanes);
    match Current(h.params, b.lanes)
    case None => Finish(b)
    case Some(t) =>
      var same := if SamePointer(b.prev, t) then b.sameCount + 1 else 0;
      if b.iterations >= MAX_ITERATIONS then Finish(b)
      else if same >= 2 then Continue(Builder(Advance(l), b.block, b.iterations + 1, b.prev, 0))
      else
        var (k, move) := Consider(h, cascade, l.fromEvm, b.block, t);
        var b1 := Builder(l, k, b.iterations + 1, Identity(t), same);
        match move
        case Next => Continue(b1.(lanes := Advance(l)))
        case Pop => Continue(b1.(lanes := PopAccount(l)))
        case Stop => Finish(b1)
        case Abort => Fail
  }

  lemma PassCounts<V, S>(h: Host<V, S>, cascade: bool, b: Builder<V, S>)
    ensures Pass(h, cascade, b).Continue? ==> Pass(h, cascade, b).b.iterations == b.iterations + 1 <= MAX_ITERATIONS
  {
  }

  ghost function Run<V, S>(h: Host<V, S>, cascade: bool, b: Builder<V, S>): Proposed<V, S>
    decreases MAX_ITERATIONS - b.iterations
  {
    match Pass(h, cascade, b)
    case Fail => Failed
    case Finish(b') => Built(b')
    case Continue(b') => Run(h, cascade, b')
  }

  // ---------- the handler ----------

  method CheckSignersLoop(seqs: map<Account, uint64>, sd: seq<SignerSeq>)
    returns (shouldAdd: bool, m: map<Account, uint64>)
    ensures match CheckSigners(seqs, sd, map[])
            case None => !shouldAdd
            case Some(want) => shouldAdd && m == want
  {
    m := map[];
    var i := 0;
    while i < |sd|
      invariant 0 <= i <= |sd|
      invariant CheckSigners(seqs, sd, map[]) == CheckSigners(seqs, sd[i..], m)
    {
      var signer := sd[i];
      assert sd[i..][0] == signer && sd[i..][1..] == sd[i + 1..];
      if signer.signer in seqs && (seqs[signer.signer] + 1) % TWO_64 != signer.sequence {
        return false, map[];
      }
      m := m[signer.signer := signer.sequence];
      i := i + 1;
    }
    shouldAdd := true;
  }

  method RecordLoop(seqs0: map<Account, uint64>, m: map<Account, uint64>, grew: bool)
    returns (seqs: map<Account, uint64>)
    ensures seqs == Record(seqs0, m, grew)
  {
    seqs := seqs0;
    var todo := m.Keys;
    while todo != {}
      invariant todo <= m.Keys
      invariant seqs.Keys == seqs0.Keys + (m.Keys - todo)
      invariant forall a :: a in seqs ==>
        seqs[a] == if a in m && a !in todo && grew then m[a] else if a in seqs0 then seqs0[a] else Before(m[a])
    {
      var sender :| sender in todo;
      if grew {
        seqs := seqs[sender := m[sender]];
      } else if sender !in seqs {
        seqs := seqs[sender := Before(m[sender])];
      }
      todo := todo - {sender};
    }
    assert seqs.Keys == Record(seqs0, m, grew).Keys;
  }

  /** The body of the loop for one transaction. */
  method ConsiderTx<V, S>(h: Host<V, S>, isEvm: bool, k: Block<V, S>, memTx: Tx) returns (k': Block<V, S>, move: Move)
    ensures (k', move) == Consider(h, true, isEvm, k, memTx)
  {
    hide CheckSigners, Record;
    k' := k;
    var isUnordered := h.unordered(memTx);
    var m: map<Account, uint64> := map[];
    if !isUnordered {
      var signerData := h.signers(memTx);
      if signerData == None {
        return k', Abort;
      }
      var shouldAdd;
      shouldAdd, m := CheckSignersLoop(k.seqs, signerData.value);
      if !shouldAdd {
        return k', Next;
      }
    }
    var (v, verdict) := h.verify(k.v, memTx);
    k' := k'.(v := v);
    if verdict.Refused? {
      if |k'.invalid| < MAX_INVALID_TXS {
        k' := k'.(invalid := k'.invalid + [memTx]);
      }
      return k', if isEvm && verdict.permanent then Pop else Next;
    }
    var choice := h.select(k.s, memTx);
    k' := k'.(s := choice.state);
    if choice.added {
      k' := k'.(selected := k'.selected + [memTx]);
    }
    if choice.stop {
      return k', Stop;
    }
    if !isUnordered {
      var seqs := RecordLoop(k.seqs, m, |k'.selected| != k'.selectedNums);
      k' := k'.(seqs := seqs);
    }
    k' := k'.(selectedNums := |k'.selected|);
    move := Next;
  }

  lemma TopOfHeap(p: Params, l: Lanes)
    requires ValidLane(l.evm)
    ensures Current(p, l).Some? && AfterTx(p, l).fromEvm ==> AfterTx(p, l).evm != map[]
    ensures Exhausted(l) <==> Peek(l.evm).None? && l.cosmos == []
    ensures Exhausted(l) ==> Current(p, l) == None
  {
  }

  /** PrepareProposal over a mempool whose Select returned `iter`. Returns the
      selected and the invalid transactions, or None when extracting signers fails. */
  method PrepareProposal<V, S>(h: Host<V, S>, iter: EVMMempoolIterator, v0: V, s0: S)
    returns (r: Option<(seq<Tx>, seq<Tx>)>)
    requires iter.Valid() && iter.params == h.params
    modifies iter
    ensures iter.Valid()
    ensures match Run(h, true, Start(old(iter.State()), v0, s0))
            case Built(b) => r == Some((b.block.selected, b.block.invalid))
            case Failed => r == None
  {
    hide Consider, Advance, AfterTx, Current, PopAccount, Peek, ValidLane, Exhausted, SamePointer, Identity;
    ghost var start := Start(iter.State(), v0, s0);
    TopOfHeap(h.params, iter.State());
    var first := iter.GetNextEVMTx();
    var live := first.Some? || iter.cosmosIterator != [];
    var block := EmptyBlock(v0, s0);
    var iterations: nat, sameCount: nat, prev := 0, 0, None;
    while live
      invariant iter.Valid() && iterations <= MAX_ITERATIONS
      invariant !live ==> Exhausted(iter.State())
      invariant Run(h, true, start) == Run(h, true, Builder(iter.State(), block, iterations, prev, sameCount))
      decreases MAX_ITERATIONS - iterations, live
    {
      TopOfHeap(h.params, iter.State());
      var memTx := iter.Tx();
      if memTx == None || iterations >= MAX_ITERATIONS {
        return Some((block.selected, block.invalid));
      }
      iterations := iterations + 1;
      if SamePointer(prev, memTx.value) {
        sameCount := sameCount + 1;
        if sameCount >= 2 {
          live := iter.Next();
          sameCount := 0;
          continue;
        }
      } else {
        sameCount := 0;
      }
      prev := Identity(memTx.value);
      var move;
      block, move := ConsiderTx(h, iter.CurrentIsEVM(), block, memTx.value);
      match move
      case Abort => return None;
      case Stop => return Some((block.selected, block.invalid));
      case Pop => iter.PopCurrentAccount();
      case Next => live := iter.Next();
    }
    TopOfHeap(h.params, iter.State());
    r := Some((block.selected, block.invalid));
  }
}
