/** What a whole run of either handler selects and what it evicts, pass by pass,
    and the passes that look at nothing. */
module BuilderTrace {
  import opened Common
  import opened MempoolIterator
  import opened IteratorRuns
  import opened BuilderLaws
  import opened CascadeSkip
  import opened CascadeExact
  import P = Proposal

  // ---------- one pass ----------

  /** The verifier is asked about t and refuses it. */
  predicate TurnedDown<V, S>(h: P.Host<V, S>, x: Books<V, S>, t: Tx) {
    Asked(h, x, t) && h.verify(x.v, t).1.Refused?
  }

  /** The books after t has been looked at; a refusal may leave a trace. */
  function AfterLook<V, S>(h: P.Host<V, S>, x: Books<V, S>, t: Tx): Books<V, S> {
    if TurnedDown(h, x, t) then x.(v := h.verify(x.v, t).0) else AfterVisit(h, x, t)
  }

  function Capped(xs: seq<Tx>): seq<Tx> { if |xs| <= 1024 then xs else xs[..1024] }

  /** What one transaction does to the block: it is put on the eviction list exactly
      if the verifier was asked about it and refused it, and there is room. */
  lemma ConsiderEffect<V, S>(h: P.Host<V, S>, cascade: bool, fromEvm: bool, k: P.Block<V, S>, t: Tx)
    requires Counted(k) && |k.invalid| <= 1024
    ensures var (k', move) := P.Consider(h, cascade, fromEvm, k, t); var x := BooksOf(k);
      && (move == P.Abort <==> !h.unordered(t) && h.signers(t).None?)
      && (move == P.Stop <==> Full(h, x, t))
      && (move == P.Pop <==> cascade && fromEvm && Pops(h, x, t))
      && k'.selected == k.selected + OneIf(Taken(h, x, t), t)
      && k'.invalid == (if TurnedDown(h, x, t) && |k.invalid| < 1024 then k.invalid + [t] else k.invalid)
      && (move == P.Next || move == P.Pop ==> Counted(k') && BooksOf(k') == AfterLook(h, x, t))
  {
    hide P.CheckSigners, P.Record;
  }

  lemma CappedStep(xs: seq<Tx>, t: Tx, more: seq<Tx>)
    requires |xs| <= 1024
    ensures Capped((if |xs| < 1024 then xs + [t] else xs) + more) == Capped(xs + ([t] + more))
  {
  }

  lemma CappedEnd(xs: seq<Tx>)
    ensures |xs| <= 1024 ==> Capped(xs + []) == xs
  {
    assert xs + [] == xs;
  }

  // ---------- whole runs ----------

  datatype Report = Report(taken: seq<Tx>, refused: seq<Tx>)

  /** The transactions taken, and those turned down, when the lanes are visited for up
      to n passes; with `cascade` a bucket is dropped where it is popped. */
  ghost function Trace<V, S>(h: P.Host<V, S>, cascade: bool, x: Books<V, S>, l: Lanes, n: nat): Report
    decreases n
  {
    match Current(h.params, l)
    case None => Report([], [])
    case Some(t) =>
      if n == 0 then Report([], [])
      else if Full(h, x, t) then Report(OneIf(Taken(h, x, t), t), [])
      else
        var more := Trace(h, cascade, AfterLook(h, x, t), NextLanes(h, l, cascade && Drops(h, x, t)), n - 1);
        Report(OneIf(Taken(h, x, t), t) + more.taken, OneIf(TurnedDown(h, x, t), t) + more.refused)
  }

  lemma FullNotTurnedDown<V, S>(h: P.Host<V, S>, x: Books<V, S>, t: Tx)
    ensures Full(h, x, t) ==> !TurnedDown(h, x, t)
  {
  }

  lemma TracePass<V, S>(h: P.Host<V, S>, cascade: bool, b: P.Builder<V, S>)
    requires Ready(h, b.lanes) && Fresh(b) && Counted(b.block) && |b.block.invalid| <= 1024
    requires Current(h.params, b.lanes).Some? && b.iterations + Size(b.lanes) <= 8192
    ensures Size(b.lanes) > 0
    ensures var t := Current(h.params, b.lanes).value; var x := BooksOf(b.block); var next := P.Pass(h, cascade, b);
      && (if Full(h, x, t) then next.Finish?
          else
            && next.Continue? && Ready(h, next.b.lanes) && Fresh(next.b) && Counted(next.b.block)
            && next.b.iterations == b.iterations + 1 && BooksOf(next.b.block) == AfterLook(h, x, t)
            && next.b.lanes == NextLanes(h, b.lanes, cascade && Drops(h, x, t)) && Size(next.b.lanes) < Size(b.lanes))
      && next.b.block.selected == b.block.selected + OneIf(Taken(h, x, t), t)
      && next.b.block.invalid ==
           (if TurnedDown(h, x, t) && |b.block.invalid| < 1024 then b.block.invalid + [t] else b.block.invalid)
  {
    hide Current, AfterTx, Advance, PopAccount, P.Consider, Fresh, Ready, Full, Taken, TurnedDown,
      AfterLook, Pops, Size;
    var t := Current(h.params, b.lanes).value;
    var l := AfterTx(h.params, b.lanes);
    var k := P.Consider(h, cascade, l.fromEvm, b.block, t).0;
    LanesOfReady(h, b.lanes);
    CurrentIsHead(h.params, b.lanes);
    StepShrinks(h.params, b.lanes);
    NoAbort(h, cascade, l.fromEvm, b.block, t, b.lanes);
    NeverStuck(h, cascade, b);
    ReadyAfter(h, b.lanes);
    FreshAfter(h, b, k, b.iterations + 1);
    ConsiderEffect(h, cascade, l.fromEvm, b.block, t);
  }

  lemma LanesOfReady<V, S>(h: P.Host<V, S>, l: Lanes)
    requires Ready(h, l)
    ensures ValidLane(l.evm) && AllConvert(l)
  {
  }

  lemma {:induction false} RunIsTrace<V, S>(h: P.Host<V, S>, cascade: bool, b: P.Builder<V, S>, n: nat)
    requires Ready(h, b.lanes) && Fresh(b) && Counted(b.block) && |b.block.invalid| <= 1024
    requires Size(b.lanes) <= n && b.iterations + Size(b.lanes) <= 8192
    ensures var run := P.Run(h, cascade, b); var trace := Trace(h, cascade, BooksOf(b.block), b.lanes, n);
      && run.Built?
      && run.b.block.selected == b.block.selected + trace.taken
      && run.b.block.invalid == Capped(b.block.invalid + trace.refused)
    decreases P.MAX_ITERATIONS - b.iterations
  {
    hide Current, P.Consider, Fresh, Ready, Full, Taken, TurnedDown, AfterLook, Drops, NextLanes, Size,
      P.Pass, Capped, OneIf, Counted;
    var c, x := Current(h.params, b.lanes), BooksOf(b.block);
    CappedEnd(b.block.invalid);
    if c.None? {
      NothingLeft(h, cascade, b);
    } else {
      var t := c.value;
      TracePass(h, cascade, b);
      OneOrNone(Taken(h, x, t), t);
      OneOrNone(TurnedDown(h, x, t), t);
      var next := P.Pass(h, cascade, b);
      if Full(h, x, t) {
        FullNotTurnedDown(h, x, t);
      } else {
        RunIsTrace(h, cascade, next.b, n - 1);
        var more := Trace(h, cascade, BooksOf(next.b.block), next.b.lanes, n - 1);
        Reassociate(b.block.selected, OneIf(Taken(h, x, t), t), more.taken);
        CappedStep(b.block.invalid, t, more.refused);
      }
    }
  }

  lemma OneOrNone(one: bool, t: Tx)
    ensures OneIf(one, t) == if one then [t] else []
    ensures forall more: seq<Tx> :: !one ==> OneIf(one, t) + more == more
  {
  }

  lemma NothingLeft<V, S>(h: P.Host<V, S>, cascade: bool, b: P.Builder<V, S>)
    requires Current(h.params, b.lanes).None?
    ensures P.Pass(h, cascade, b) == P.Finish(b)
    ensures b.block.selected + [] == b.block.selected
  {
  }

  /** What either handler returns, for any verifier and selector: the transactions
      taken, and for eviction the first 1024 the verifier turned down, both in the
      order in which that handler visits the lanes. */
  lemma HandlerReport<V, S>(h: P.Host<V, S>, cascade: bool, l: Lanes, v: V, s: S)
    requires Ready(h, l) && Size(l) <= 8192
    ensures var run := P.Run(h, cascade, P.Start(l, v, s)); var trace := Trace(h, cascade, NoBooks(v, s), l, Size(l));
      && run.Built?
      && run.b.block.selected == trace.taken
      && run.b.block.invalid == if |trace.refused| <= 1024 then trace.refused else trace.refused[..1024]
  {
    hide P.Run, Trace, Ready, Size;
    var start := P.Start(l, v, s);
    RunIsTrace(h, cascade, start, Size(l));
    var trace := Trace(h, cascade, NoBooks(v, s), l, Size(l));
    assert [] + trace.taken == trace.taken && [] + trace.refused == trace.refused;
  }

  // ---------- passes that look at nothing ----------

  /** A Cosmos transaction seen for the third time in a row is passed over unseen; the
      second time it is looked at again, and another one starts the count afresh. */
  lemma ThirdSight<V, S>(h: P.Host<V, S>, cascade: bool, b: P.Builder<V, S>, c: CosmosTx)
    requires Current(h.params, b.lanes) == Some(FromCosmos(c)) && b.iterations < 8192
    ensures var next := P.Pass(h, cascade, b);
      if b.prev == Some(c.id) && b.sameCount >= 1 then
        && next.Continue? && next.b.block == b.block && next.b.sameCount == 0
        && next.b.lanes == Advance(AfterTx(h.params, b.lanes))
      else
        var (k, move) := P.Consider(h, cascade, AfterTx(h.params, b.lanes).fromEvm, b.block, FromCosmos(c));
        && (move == P.Abort <==> next.Fail?)
        && (!next.Fail? ==>
              && next.b.block == k && next.b.prev == Some(c.id)
              && next.b.sameCount == if b.prev == Some(c.id) then b.sameCount + 1 else 0)
  {
    hide P.Consider, Current, AfterTx, Advance, PopAccount;
  }

  /** An EVM transaction is a new object each time and never counts as seen before. */
  lemma EvmAlwaysSeen<V, S>(h: P.Host<V, S>, cascade: bool, b: P.Builder<V, S>, e: EvmTx)
    requires Current(h.params, b.lanes) == Some(FromEvm(e)) && b.iterations < 8192
    ensures var next := P.Pass(h, cascade, b);
      var (k, move) := P.Consider(h, cascade, AfterTx(h.params, b.lanes).fromEvm, b.block, FromEvm(e));
      (move == P.Abort <==> next.Fail?) && (!next.Fail? ==> next.b.block == k && next.b.prev == None)
  {
    hide P.Consider, Current, AfterTx, Advance, PopAccount;
  }

  /** The run fails exactly at an ordered transaction whose signers cannot be read. */
  lemma PassFailsIff<V, S>(h: P.Host<V, S>, cascade: bool, b: P.Builder<V, S>)
    ensures P.Pass(h, cascade, b).Fail? <==>
      && b.iterations < 8192 && Current(h.params, b.lanes).Some?
      && var t := Current(h.params, b.lanes).value;
      && !h.unordered(t) && h.signers(t).None?
      && !(t.FromCosmos? && b.prev == Some(t.cosmos.id) && b.sameCount >= 1)
  {
    hide Current, AfterTx, Advance, PopAccount, P.CheckSigners, P.Record;
  }
}
