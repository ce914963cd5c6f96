/** What every run of the proposal builder keeps, for any mempool, verifier and
    selector, with or without the cascade skip. */
module BuilderLaws {
  import opened Common
  import opened MempoolIterator
  import opened IteratorRuns
  import P = Proposal

  // ---------- progress ----------

  /** Every pass that does not end the loop takes at least one pending
      transaction out of the lanes, whether it shifts, pops or is forced on. */
  lemma PassShrinks<V, S>(h: P.Host<V, S>, cascade: bool, b: P.Builder<V, S>)
    requires ValidLane(b.lanes.evm) && P.Pass(h, cascade, b).Continue?
    ensures ValidLane(P.Pass(h, cascade, b).b.lanes.evm)
    ensures Size(P.Pass(h, cascade, b).b.lanes) < Size(b.lanes)
    ensures P.Pass(h, cascade, b).b.iterations == b.iterations + 1 <= P.MAX_ITERATIONS
  {
    hide AfterTx, Current, Advance, PopAccount, Size, ValidLane;
    StepShrinks(h.params, b.lanes);
    AfterTxLanes(h.params, b.lanes);
    AdvanceValid(AfterTx(h.params, b.lanes));
    PopNeedsEvm(h, cascade, AfterTx(h.params, b.lanes).fromEvm, b.block, Current(h.params, b.lanes).value);
  }

  lemma AfterTxLanes(p: Params, l: Lanes)
    ensures AfterTx(p, l).evm == l.evm && AfterTx(p, l).cosmos == l.cosmos
  {
  }

  lemma PopNeedsEvm<V, S>(h: P.Host<V, S>, cascade: bool, fromEvm: bool, k: P.Block<V, S>, t: Tx)
    ensures P.Consider(h, cascade, fromEvm, k, t).1 == P.Pop ==> cascade && fromEvm
  {
  }

  lemma BlockGrows<V, S>(h: P.Host<V, S>, cascade: bool, fromEvm: bool, k: P.Block<V, S>, t: Tx)
    ensures var k' := P.Consider(h, cascade, fromEvm, k, t).0;
      k.selected <= k'.selected && (|k.invalid| <= P.MAX_INVALID_TXS ==> |k'.invalid| <= P.MAX_INVALID_TXS)
  {
  }

  /** The loop makes at most as many passes as there are pending transactions and
      at most 8192, the eviction list never exceeds 1024, and nothing selected
      is ever taken back. */
  lemma {:induction false} RunBounds<V, S>(h: P.Host<V, S>, cascade: bool, b: P.Builder<V, S>)
    requires ValidLane(b.lanes.evm) && b.iterations <= 8192 && |b.block.invalid| <= 1024
    ensures var r := P.Run(h, cascade, b);
      r.Built? ==>
        && r.b.iterations <= 8192
        && r.b.iterations <= b.iterations + Size(b.lanes)
        && |r.b.block.invalid| <= 1024
        && b.block.selected <= r.b.block.selected
    decreases P.MAX_ITERATIONS - b.iterations
  {
    hide AfterTx, Current, Advance, PopAccount, Size, ValidLane, P.Consider;
    var t := Current(h.params, b.lanes);
    if t.Some? {
      BlockGrows(h, cascade, AfterTx(h.params, b.lanes).fromEvm, b.block, t.value);
      StepShrinks(h.params, b.lanes);
    }
    if P.Pass(h, cascade, b).Continue? {
      PassShrinks(h, cascade, b);
      RunBounds(h, cascade, P.Pass(h, cascade, b).b);
    }
  }

  // ---------- the eviction list bounds memory only ----------

  ghost predicate SameButInvalid<V(!new), S(!new)>(x: P.Proposed<V, S>, y: P.Proposed<V, S>) {
    match (x, y)
    case (Failed, Failed) => true
    case (Built(b), Built(c)) => b == c.(block := c.block.(invalid := b.block.invalid))
    case _ => false
  }

  ghost function WithInvalid<V, S>(b: P.Builder<V, S>, invalid: seq<Tx>): P.Builder<V, S> {
    b.(block := b.block.(invalid := invalid))
  }

  lemma ConsiderIgnoresInvalid<V, S>(
    h: P.Host<V, S>, cascade: bool, fromEvm: bool, k: P.Block<V, S>, t: Tx, invalid: seq<Tx>)
    returns (after: seq<Tx>)
    ensures var (k', move) := P.Consider(h, cascade, fromEvm, k, t);
      P.Consider(h, cascade, fromEvm, k.(invalid := invalid), t) == (k'.(invalid := after), move)
  {
    after := P.Consider(h, cascade, fromEvm, k.(invalid := invalid), t).0.invalid;
  }

  /** However full the list of invalid transactions is, the run takes the same
      course: reaching its cap never stops a bucket pop, nor anything else. */
  lemma {:induction false} InvalidNeverGates<V(!new), S(!new)>(
    h: P.Host<V, S>, cascade: bool, b: P.Builder<V, S>, invalid: seq<Tx>)
    ensures SameButInvalid(P.Run(h, cascade, b), P.Run(h, cascade, WithInvalid(b, invalid)))
    decreases P.MAX_ITERATIONS - b.iterations
  {
    hide AfterTx, Current, Advance, PopAccount, P.Consider;
    var t := Current(h.params, b.lanes);
    if t.Some? {
      var after := ConsiderIgnoresInvalid(h, cascade, AfterTx(h.params, b.lanes).fromEvm, b.block, t.value, invalid);
      match P.Pass(h, cascade, b)
      case Continue(b') =>
        var next := P.Pass(h, cascade, WithInvalid(b, invalid)).b;
        assert next == WithInvalid(b', next.block.invalid);
        InvalidNeverGates(h, cascade, b', next.block.invalid);
      case _ =>
    }
  }

  // ---------- signer sequences ----------

  ghost predicate OncePerSigner(sd: seq<P.SignerSeq>) {
    forall i, j :: 0 <= i < j < |sd| ==> sd[i].signer != sd[j].signer
  }

  /** Each transaction lists a signer once. */
  ghost predicate SignersDistinct<V, S>(h: P.Host<V, S>) {
    forall t :: h.signers(t).Some? ==> OncePerSigner(h.signers(t).value)
  }

  ghost function SequenceIn(sd: seq<P.SignerSeq>, a: Account): seq<uint64> {
    if sd == [] then []
    else (if sd[0].signer == a then [sd[0].sequence] else []) + SequenceIn(sd[1..], a)
  }

  /** The sequence number t carries for signer a, if t is ordered and a signs it. */
  ghost function CarriedBy<V, S>(h: P.Host<V, S>, t: Tx, a: Account): seq<uint64> {
    if h.unordered(t) || h.signers(t).None? then [] else SequenceIn(h.signers(t).value, a)
  }

  ghost function Carried<V, S>(h: P.Host<V, S>, selected: seq<Tx>, a: Account): seq<uint64> {
    if selected == [] then []
    else Carried(h, selected[..|selected| - 1], a) + CarriedBy(h, selected[|selected| - 1], a)
  }

  ghost predicate Consecutive(xs: seq<uint64>) {
    forall i :: 0 <= i < |xs| - 1 ==> xs[i + 1] == (xs[i] + 1) % TWO_64
  }

  /** What the loop keeps for signer a: consecutive so far, the last one recorded. */
  ghost predicate SafeFor<V, S>(h: P.Host<V, S>, k: P.Block<V, S>, a: Account) {
    var xs := Carried(h, k.selected, a);
    && k.selectedNums == |k.selected|
    && Consecutive(xs)
    && (xs != [] ==> a in k.seqs && k.seqs[a] == xs[|xs| - 1])
  }

  /** What a successful check says about signer a. */
  lemma {:induction false} CheckedSigner(
    seqs: map<Account, uint64>, sd: seq<P.SignerSeq>, acc: map<Account, uint64>, a: Account)
    requires OncePerSigner(sd) && P.CheckSigners(seqs, sd, acc).Some?
    ensures var m := P.CheckSigners(seqs, sd, acc).value;
      var xs := SequenceIn(sd, a);
      && |xs| <= 1
      && (xs == [] ==> (a in m <==> a in acc) && (a in acc ==> m[a] == acc[a]))
      && (xs != [] ==> a in m && m[a] == xs[0] && (a in seqs ==> (seqs[a] + 1) % TWO_64 == xs[0]))
    decreases sd
  {
    if sd != [] {
      CheckedSigner(seqs, sd[1..], acc[sd[0].signer := sd[0].sequence], a);
      if sd[0].signer == a { NotIn(sd[1..], a); }
    }
  }

  lemma {:induction false} NotIn(sd: seq<P.SignerSeq>, a: Account)
    requires forall i :: 0 <= i < |sd| ==> sd[i].signer != a
    ensures SequenceIn(sd, a) == []
  {
    if sd != [] {
      NotIn(sd[1..], a);
    }
  }

  lemma AppendConsecutive(xs: seq<uint64>, ys: seq<uint64>)
    requires Consecutive(xs) && |ys| <= 1
    requires xs != [] && ys != [] ==> ys[0] == (xs[|xs| - 1] + 1) % TWO_64
    ensures Consecutive(xs + ys)
  {
  }

  lemma OfferSafe<V, S>(
    h: P.Host<V, S>, cascade: bool, fromEvm: bool, k: P.Block<V, S>, t: Tx, m: map<Account, uint64>, a: Account)
    requires SafeFor(h, k, a)
    requires var ys := CarriedBy(h, t, a);
      && |ys| <= 1
      && (h.unordered(t) || (a in m <==> ys != []))
      && (ys != [] ==> a in m && m[a] == ys[0] && (a in k.seqs ==> (k.seqs[a] + 1) % TWO_64 == ys[0]))
    ensures var (k', move) := P.Offer(h, cascade, fromEvm, k, t, m);
      Consecutive(Carried(h, k'.selected, a)) && (move != P.Stop ==> SafeFor(h, k', a))
  {
    hide Carried, CarriedBy, Consecutive, P.Record;
    var xs := Carried(h, k.selected, a);
    var ys := CarriedBy(h, t, a);
    AppendConsecutive(xs, ys);
    CarriedAppend(h, k.selected, t, a);
    RecordEffect(k.seqs, m, a);
    if h.unordered(t) { UnorderedCarriesNothing(h, t, a); }
  }

  lemma CarriedAppend<V, S>(h: P.Host<V, S>, selected: seq<Tx>, t: Tx, a: Account)
    ensures Carried(h, selected + [t], a) == Carried(h, selected, a) + CarriedBy(h, t, a)
  {
    assert (selected + [t])[..|selected|] == selected;
  }

  lemma UnorderedCarriesNothing<V, S>(h: P.Host<V, S>, t: Tx, a: Account)
    ensures h.unordered(t) ==> CarriedBy(h, t, a) == []
  {
  }

  lemma RecordEffect(seqs: map<Account, uint64>, m: map<Account, uint64>, a: Account)
    ensures var r := P.Record(seqs, m, true);
      (a in r <==> a in seqs || a in m) && (a in r ==> r[a] == if a in m then m[a] else seqs[a])
    ensures var r := P.Record(seqs, m, false);
      (a in r <==> a in seqs || a in m) && (a in r ==> r[a] == if a in seqs then seqs[a] else P.Before(m[a]))
  {
  }

  lemma ConsiderSafe<V, S>(h: P.Host<V, S>, cascade: bool, fromEvm: bool, k: P.Block<V, S>, t: Tx, a: Account)
    requires SignersDistinct(h) && SafeFor(h, k, a)
    ensures var (k', move) := P.Consider(h, cascade, fromEvm, k, t);
      Consecutive(Carried(h, k'.selected, a)) && (move != P.Stop ==> SafeFor(h, k', a))
  {
    hide P.Offer, P.CheckSigners, SafeFor;
    if h.unordered(t) {
      OfferSafe(h, cascade, fromEvm, k, t, map[], a);
    } else if h.signers(t).Some? {
      var sd := h.signers(t).value;
      if P.CheckSigners(k.seqs, sd, map[]).Some? {
        CheckedSigner(k.seqs, sd, map[], a);
        OfferSafe(h, cascade, fromEvm, k, t, P.CheckSigners(k.seqs, sd, map[]).value, a);
      }
    }
    SafeIsConsecutive(h, k, a);
  }

  lemma SafeIsConsecutive<V, S>(h: P.Host<V, S>, k: P.Block<V, S>, a: Account)
    ensures SafeFor(h, k, a) ==> Consecutive(Carried(h, k.selected, a))
  {
  }

  lemma {:induction false} RunSafe<V, S>(h: P.Host<V, S>, cascade: bool, b: P.Builder<V, S>, a: Account)
    requires SignersDistinct(h) && SafeFor(h, b.block, a)
    ensures var r := P.Run(h, cascade, b); r.Built? ==> Consecutive(Carried(h, r.b.block.selected, a))
    decreases P.MAX_ITERATIONS - b.iterations
  {
    hide AfterTx, Current, Advance, PopAccount, P.Consider, SafeFor;
    SafeIsConsecutive(h, b.block, a);
    var t := Current(h.params, b.lanes);
    if t.Some? {
      ConsiderSafe(h, cascade, AfterTx(h.params, b.lanes).fromEvm, b.block, t.value, a);
    }
    P.PassCounts(h, cascade, b);
    if P.Pass(h, cascade, b).Continue? {
      RunSafe(h, cascade, P.Pass(h, cascade, b).b, a);
    }
  }

  /** In every proposal built, for every signer, the ordered transactions that
      carry it have consecutive sequence numbers (modulo 2^64) in block order:
      for any lanes, verifier and selector, whatever is refused for capacity. */
  lemma SequenceSafety<V, S>(h: P.Host<V, S>, cascade: bool, l: Lanes, v: V, s: S, a: Account)
    requires SignersDistinct(h)
    ensures var r := P.Run(h, cascade, P.Start(l, v, s));
      r.Built? ==> Consecutive(Carried(h, r.b.block.selected, a))
  {
    RunSafe(h, cascade, P.Start(l, v, s), a);
  }

  lemma BeforeWraps(x: uint64, y: uint64)
    ensures (P.Before(x) + 1) % TWO_64 == y <==> x == y
  {
  }

  /** A check passes exactly when each signer already in the block carries the
      sequence after the one recorded. */
  lemma {:induction false} CheckExact(seqs: map<Account, uint64>, sd: seq<P.SignerSeq>, acc: map<Account, uint64>)
    ensures P.CheckSigners(seqs, sd, acc).Some? <==>
      forall x <- sd :: x.signer in seqs ==> (seqs[x.signer] + 1) % TWO_64 == x.sequence
    decreases sd
  {
    if sd != [] {
      CheckExact(seqs, sd[1..], acc[sd[0].signer := sd[0].sequence]);
      assert forall x :: x in sd <==> x == sd[0] || x in sd[1..];
    }
  }

  lemma {:induction false} CarriedOnce(sd: seq<P.SignerSeq>, i: nat)
    requires OncePerSigner(sd) && i < |sd|
    ensures SequenceIn(sd, sd[i].signer) == [sd[i].sequence]
  {
    if i == 0 {
      NotIn(sd[1..], sd[0].signer);
    } else {
      CarriedOnce(sd[1..], i - 1);
    }
  }

  /** A refusal for capacity keeps every signer's slot: after it, each signer of
      the refused transaction, in the block before or not, is expected to carry
      exactly the sequence it carried there, wrap-around at 0 included. */
  lemma RefusedKeepsSlot<V, S>(h: P.Host<V, S>, cascade: bool, fromEvm: bool, k: P.Block<V, S>, t: Tx, i: nat)
    requires k.selectedNums == |k.selected| && !h.unordered(t) && h.signers(t).Some?
    requires var sd := h.signers(t).value; OncePerSigner(sd) && i < |sd| && P.CheckSigners(k.seqs, sd, map[]).Some?
    requires h.verify(k.v, t).1.Accepted? && !h.select(k.s, t).added && !h.select(k.s, t).stop
    ensures var x := h.signers(t).value[i]; var seqs := P.Consider(h, cascade, fromEvm, k, t).0.seqs;
      && x.signer in seqs && (seqs[x.signer] + 1) % TWO_64 == x.sequence
      && forall next: seq<P.SignerSeq> :: P.CheckSigners(seqs, next, map[]).Some? ==>
           forall y <- next :: y.signer == x.signer ==> y == x
  {
    hide P.Before, P.CheckSigners, P.Record;
    var sd := h.signers(t).value;
    var x := sd[i];
    var m := P.CheckSigners(k.seqs, sd, map[]).value;
    CheckedSigner(k.seqs, sd, map[], x.signer);
    CarriedOnce(sd, i);
    RecordEffect(k.seqs, m, x.signer);
    BeforeWraps(x.sequence, x.sequence);
    var seqs := P.Consider(h, cascade, fromEvm, k, t).0.seqs;
    assert seqs == P.Record(k.seqs, m, false);
    forall next: seq<P.SignerSeq> | P.CheckSigners(seqs, next, map[]).Some?
      ensures forall y <- next :: y.signer == x.signer ==> y == x
    {
      CheckExact(seqs, next, map[]);
    }
  }
}
