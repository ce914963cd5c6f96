/** What the plain handler selects, and exactly when the cascade skip selects the
    same, in terms of the pending transactions and of verifier and selector. */
module CascadeExact {
  import opened Common
  import opened MempoolIterator
  import opened IteratorRuns
  import opened BuilderLaws
  import opened CascadeSkip
  import P = Proposal

  /** The order in which the lanes hand out all pending transactions. */
  ghost function Order(p: Params, l: Lanes): seq<Tx> { Run(p, l, Nexts(Size(l))) }

  // ---------- taking turns ----------

  /** What the handler remembers while it visits transactions: the sequences
      recorded, and the states of verifier and selector. */
  datatype Books<V, S> = Books(seqs: map<Account, uint64>, v: V, s: S)

  /** The verifier is asked about t: its sequences follow those recorded. */
  predicate Asked<V, S>(h: P.Host<V, S>, x: Books<V, S>, t: Tx) {
    h.unordered(t) || (h.signers(t).Some? && P.CheckSigners(x.seqs, h.signers(t).value, map[]).Some?)
  }

  predicate InTurn<V, S>(h: P.Host<V, S>, x: Books<V, S>, t: Tx) {
    Asked(h, x, t) && h.verify(x.v, t).1.Accepted?
  }

  /** In turn, and the selector has room for it. */
  predicate Taken<V, S>(h: P.Host<V, S>, x: Books<V, S>, t: Tx) { InTurn(h, x, t) && h.select(x.s, t).added }

  /** The selector says to stop at t. */
  predicate Full<V, S>(h: P.Host<V, S>, x: Books<V, S>, t: Tx) { InTurn(h, x, t) && h.select(x.s, t).stop }

  function AfterVisit<V, S>(h: P.Host<V, S>, x: Books<V, S>, t: Tx): Books<V, S> {
    if !InTurn(h, x, t) then x
    else
      var c := h.select(x.s, t);
      var seqs := if h.unordered(t) then x.seqs
                  else P.Record(x.seqs, P.CheckSigners(x.seqs, h.signers(t).value, map[]).value, c.added);
      Books(seqs, h.verify(x.v, t).0, c.state)
  }

  predicate IsEvmOf(t: Tx, a: Account) { t.FromEvm? && t.evm.sender == a }

  function OneIf(taken: bool, t: Tx): seq<Tx> { if taken then [t] else [] }

  /** The transactions taken when ts are visited in this order, until the selector
      says to stop. */
  function Turns<V, S>(h: P.Host<V, S>, x: Books<V, S>, ts: seq<Tx>): seq<Tx>
    decreases ts
  {
    if ts == [] then []
    else OneIf(Taken(h, x, ts[0]), ts[0]) + if Full(h, x, ts[0]) then [] else Turns(h, AfterVisit(h, x, ts[0]), ts[1..])
  }

  /** Some EVM transaction of account a gets its turn. */
  predicate GetsTurn<V, S>(h: P.Host<V, S>, x: Books<V, S>, ts: seq<Tx>, a: Account)
    decreases ts
  {
    ts != [] &&
    ((IsEvmOf(ts[0], a) && InTurn(h, x, ts[0])) ||
     (!Full(h, x, ts[0]) && GetsTurn(h, AfterVisit(h, x, ts[0]), ts[1..], a)))
  }

  /** And is taken. */
  ghost predicate IsTaken<V, S>(h: P.Host<V, S>, x: Books<V, S>, ts: seq<Tx>, a: Account) {
    exists t :: t in Turns(h, x, ts) && IsEvmOf(t, a)
  }

  /** The verifier is asked about t and refuses it for good. */
  predicate Pops<V, S>(h: P.Host<V, S>, x: Books<V, S>, t: Tx) {
    Asked(h, x, t) && h.verify(x.v, t).1.Refused? && h.verify(x.v, t).1.permanent
  }

  /** Where account a's bucket is popped when ts are visited in this order: the books
      at that point and the transactions still to be visited. */
  datatype Later<V, S> = Later(x: Books<V, S>, ts: seq<Tx>)

  function PopPoint<V, S>(h: P.Host<V, S>, x: Books<V, S>, ts: seq<Tx>, a: Account): Option<Later<V, S>>
    decreases ts
  {
    if ts == [] then None
    else if IsEvmOf(ts[0], a) && Pops(h, x, ts[0]) then Some(Later(x, ts[1..]))
    else if Full(h, x, ts[0]) then None
    else PopPoint(h, AfterVisit(h, x, ts[0]), ts[1..], a)
  }

  /** Account a's bucket hides a turn: it is popped, and a later transaction of it
      would get its turn. */
  predicate Hidden<V, S>(h: P.Host<V, S>, x: Books<V, S>, ts: seq<Tx>, a: Account) {
    var p := PopPoint(h, x, ts, a);
    p.Some? && GetsTurn(h, p.value.x, p.value.ts, a)
  }

  ghost predicate HiddenTaken<V, S>(h: P.Host<V, S>, x: Books<V, S>, ts: seq<Tx>, a: Account) {
    var p := PopPoint(h, x, ts, a);
    p.Some? && IsTaken(h, p.value.x, p.value.ts, a)
  }

  lemma FullInTurn<V, S>(h: P.Host<V, S>, x: Books<V, S>, t: Tx)
    ensures Full(h, x, t) || Taken(h, x, t) ==> InTurn(h, x, t)
    ensures !InTurn(h, x, t) ==> AfterVisit(h, x, t) == x
    ensures Pops(h, x, t) ==> !InTurn(h, x, t)
  {
  }

  lemma VisitFirst<V, S>(h: P.Host<V, S>, x: Books<V, S>, t: Tx, ts: seq<Tx>, a: Account)
    ensures GetsTurn(h, x, [t] + ts, a) <==>
      (IsEvmOf(t, a) && InTurn(h, x, t)) || (!Full(h, x, t) && GetsTurn(h, AfterVisit(h, x, t), ts, a))
  {
    hide InTurn, AfterVisit, IsEvmOf, Full;
    assert ([t] + ts)[1..] == ts;
  }

  lemma TurnsFirst<V, S>(h: P.Host<V, S>, x: Books<V, S>, t: Tx, ts: seq<Tx>)
    ensures Turns(h, x, [t] + ts) ==
      OneIf(Taken(h, x, t), t) + if Full(h, x, t) then [] else Turns(h, AfterVisit(h, x, t), ts)
  {
    hide Taken, AfterVisit, Full, OneIf;
    assert ([t] + ts)[1..] == ts;
  }

  lemma PopFirst<V, S>(h: P.Host<V, S>, x: Books<V, S>, t: Tx, ts: seq<Tx>, a: Account)
    ensures PopPoint(h, x, [t] + ts, a) ==
      if IsEvmOf(t, a) && Pops(h, x, t) then Some(Later(x, ts))
      else if Full(h, x, t) then None
      else PopPoint(h, AfterVisit(h, x, t), ts, a)
  {
    hide AfterVisit, IsEvmOf, Full, Pops;
    assert ([t] + ts)[1..] == ts;
  }

  /** An order without EVM transactions of a does not pop its bucket. */
  lemma {:induction false} NothingPopped<V, S>(h: P.Host<V, S>, x: Books<V, S>, ts: seq<Tx>, a: Account)
    requires EvmYields(ts, a) == []
    ensures PopPoint(h, x, ts, a) == None
    decreases ts
  {
    hide AfterVisit, Full, Pops;
    if ts != [] {
      NothingPopped(h, AfterVisit(h, x, ts[0]), ts[1..], a);
    }
  }

  // ---------- one transaction in the handler ----------

  function BooksOf<V, S>(k: P.Block<V, S>): Books<V, S> { Books(k.seqs, k.v, k.s) }

  ghost predicate Counted<V, S>(k: P.Block<V, S>) { k.selectedNums == |k.selected| }

  /** Both handlers offer a transaction in turn to the selector and record it. */
  lemma ConsiderTurn<V, S>(h: P.Host<V, S>, cascade: bool, fromEvm: bool, k: P.Block<V, S>, t: Tx)
    requires Counted(k) && InTurn(h, BooksOf(k), t)
    ensures var (k', move) := P.Consider(h, cascade, fromEvm, k, t); var x := BooksOf(k);
      && move == (if Full(h, x, t) then P.Stop else P.Next)
      && k'.selected == k.selected + OneIf(Taken(h, x, t), t)
      && (move == P.Next ==> Counted(k') && BooksOf(k') == AfterVisit(h, x, t))
  {
    hide P.CheckSigners, P.Record;
  }

  /** One whose turn has not come leaves the block as it was, but for the list of
      invalid ones; the skip pops where the verifier is asked and refuses for good. */
  lemma ConsiderNoTurn<V(!new), S>(h: P.Host<V, S>, cascade: bool, fromEvm: bool, k: P.Block<V, S>, t: Tx)
    requires RefusalsLeaveNoTrace(h) && !InTurn(h, BooksOf(k), t)
    requires h.unordered(t) || h.signers(t).Some?
    ensures var (k', move) := P.Consider(h, cascade, fromEvm, k, t);
      && SameBlock(k', k)
      && move == if cascade && fromEvm && Pops(h, BooksOf(k), t) then P.Pop else P.Next
  {
    hide P.CheckSigners;
  }

  lemma SameBooks<V, S>(x: P.Block<V, S>, y: P.Block<V, S>)
    requires SameBlock(x, y)
    ensures Counted(x) <==> Counted(y)
    ensures BooksOf(x) == BooksOf(y) && x.selected == y.selected
  {
  }

  // ---------- the visiting order ----------

  lemma OrderStep(p: Params, l: Lanes)
    requires ValidLane(l.evm) && AllConvert(l)
    ensures Current(p, l).None? ==> Order(p, l) == []
    ensures Current(p, l).Some? ==> Order(p, l) == [Current(p, l).value] + Order(p, Advance(AfterTx(p, l)))
  {
    hide Current, AfterTx, Advance, ValidLane, AllConvert;
    EmptyIsExhausted(p, l);
    if Current(p, l).Some? {
      StepShrinks(p, l);
      assert Nexts(Size(l))[1..] == Nexts(Size(l) - 1);
    }
  }

  lemma OrderYields(p: Params, l: Lanes, a: Account)
    requires ValidLane(l.evm) && AllConvert(l)
    ensures EvmYields(Order(p, l), a) == Bucket(l, a) && CosmosYields(Order(p, l)) == l.cosmos
  {
    hide ValidLane, AllConvert, Size, Run;
    DrainComplete(p, l, Size(l), a);
  }

  // ---------- the plain handler ----------

  /** What the loops keep. */
  ghost predicate Going<V(!new), S>(h: P.Host<V, S>, b: P.Builder<V, S>) {
    RefusalsLeaveNoTrace(h) && Ready(h, b.lanes) && Fresh(b) && Counted(b.block)
  }

  /** And no pass will run into the iteration cap. */
  ghost predicate Short<V, S>(b: P.Builder<V, S>) { b.iterations + Size(b.lanes) <= P.MAX_ITERATIONS }

  lemma GoingLanes<V(!new), S>(h: P.Host<V, S>, b: P.Builder<V, S>)
    requires Going(h, b)
    ensures ValidLane(b.lanes.evm) && AllConvert(b.lanes) && Ready(h, b.lanes)
  {
  }

  /** One pass of either handler: `drops` says whether the bucket is popped. */
  lemma OnePass<V(!new), S>(h: P.Host<V, S>, cascade: bool, b: P.Builder<V, S>)
    requires Going(h, b) && Current(h.params, b.lanes).Some? && b.iterations < P.MAX_ITERATIONS
    ensures var t := Current(h.params, b.lanes).value; var x := BooksOf(b.block);
      var next := P.Pass(h, cascade, b);
      if Full(h, x, t) then next.Finish? && next.b.block.selected == b.block.selected + OneIf(Taken(h, x, t), t)
      else
        && next.Continue? && Going(h, next.b)
        && next.b.lanes == NextLanes(h, b.lanes, cascade && Drops(h, x, t))
        && next.b.iterations == b.iterations + 1
        && next.b.block == P.Consider(h, cascade, AfterTx(h.params, b.lanes).fromEvm, b.block, t).0
        && BooksOf(next.b.block) == AfterVisit(h, x, t)
        && next.b.block.selected == b.block.selected + OneIf(Taken(h, x, t), t)
  {
    hide Current, AfterTx, Advance, PopAccount, P.Consider, Fresh, Ready, InTurn, RefusalsLeaveNoTrace,
      Full, Taken, AfterVisit, Pops;
    var t := Current(h.params, b.lanes).value;
    var l := AfterTx(h.params, b.lanes);
    var k := P.Consider(h, cascade, l.fromEvm, b.block, t).0;
    GoingLanes(h, b);
    CurrentIsHead(h.params, b.lanes);
    NoAbort(h, cascade, l.fromEvm, b.block, t, b.lanes);
    NeverStuck(h, cascade, b);
    ReadyAfter(h, b.lanes);
    FreshAfter(h, b, k, b.iterations + 1);
    FullInTurn(h, BooksOf(b.block), t);
    if InTurn(h, BooksOf(b.block), t) {
      ConsiderTurn(h, cascade, l.fromEvm, b.block, t);
    } else {
      ConsiderNoTurn(h, cascade, l.fromEvm, b.block, t);
      SameBooks(k, b.block);
    }
  }

  /** The skip drops the bucket of the transaction it looks at. */
  predicate Drops<V, S>(h: P.Host<V, S>, x: Books<V, S>, t: Tx) { t.FromEvm? && Pops(h, x, t) }

  ghost function NextLanes<V, S>(h: P.Host<V, S>, l: Lanes, drops: bool): Lanes {
    if drops then PopAccount(AfterTx(h.params, l)) else Advance(AfterTx(h.params, l))
  }

  lemma ShortPass<V(!new), S>(h: P.Host<V, S>, b: P.Builder<V, S>)
    requires Going(h, b) && Short(b) && Current(h.params, b.lanes).Some?
    ensures b.iterations < P.MAX_ITERATIONS
    ensures b.iterations + 1 + Size(NextLanes(h, b.lanes, false)) <= P.MAX_ITERATIONS
  {
    hide Size, Current, Advance, AfterTx, Ready, RefusalsLeaveNoTrace;
    GoingLanes(h, b);
    StepShrinks(h.params, b.lanes);
  }

  lemma FinishesEmpty<V, S>(h: P.Host<V, S>, cascade: bool, b: P.Builder<V, S>)
    requires Current(h.params, b.lanes).None?
    ensures P.Pass(h, cascade, b) == P.Finish(b)
  {
  }

  lemma NoTurns<V, S>(h: P.Host<V, S>, x: Books<V, S>)
    ensures Turns(h, x, []) == []
  {
  }

  /** The plain handler selects exactly the transactions taken in the visiting order. */
  lemma {:induction false} PlainTakesTurns<V(!new), S>(h: P.Host<V, S>, b: P.Builder<V, S>)
    requires Going(h, b) && Short(b)
    ensures var run := P.Run(h, false, b);
      && run.Built?
      && run.b.block.selected == b.block.selected + Turns(h, BooksOf(b.block), Order(h.params, b.lanes))
    decreases P.MAX_ITERATIONS - b.iterations
  {
    hide Going, Current, AfterTx, Advance, P.Consider, Order, AfterVisit, P.Pass, Full, Taken, Turns, OneIf, Size;
    GoingLanes(h, b);
    OrderStep(h.params, b.lanes);
    var c, x := Current(h.params, b.lanes), BooksOf(b.block);
    if c.None? {
      FinishesEmpty(h, false, b);
      NoTurns(h, x);
    } else {
      var t, rest := c.value, Order(h.params, Advance(AfterTx(h.params, b.lanes)));
      ShortPass(h, b);
      OnePass(h, false, b);
      TurnsFirst(h, x, t, rest);
      if !Full(h, x, t) {
        PlainTakesTurns(h, P.Pass(h, false, b).b);
        Reassociate(b.block.selected, OneIf(Taken(h, x, t), t), Turns(h, AfterVisit(h, x, t), rest));
      }
    }
  }

  // ---------- the two handlers in step ----------

  /** The plain lanes hold the skipping lanes plus buckets that will not get a turn. */
  ghost predicate LanesPaired<V, S>(h: P.Host<V, S>, plain: Lanes, skip: Lanes, x: Books<V, S>, order: seq<Tx>) {
    && plain.cosmos == skip.cosmos
    && (forall a :: Bucket(skip, a) == [] || Bucket(skip, a) == Bucket(plain, a))
    && (forall a :: Bucket(skip, a) == [] && Bucket(plain, a) != [] ==> !GetsTurn(h, x, order, a))
  }

  ghost predicate Paired<V(!new), S(!new)>(h: P.Host<V, S>, plain: P.Builder<V, S>, skip: P.Builder<V, S>) {
    && Going(h, plain) && Short(plain) && Going(h, skip)
    && SameBlock(plain.block, skip.block)
    && skip.iterations <= plain.iterations
    && LanesPaired(h, plain.lanes, skip.lanes, BooksOf(plain.block), Order(h.params, plain.lanes))
  }

  /** Where the bucket of a, if it is still there, will be popped. */
  ghost function PopIn<V, S>(h: P.Host<V, S>, x: Books<V, S>, order: seq<Tx>, skip: Lanes, a: Account)
    : Option<Later<V, S>>
  {
    if Bucket(skip, a) == [] then None else PopPoint(h, x, order, a)
  }

  /** A bucket still there hides a turn from the skip. */
  ghost predicate HiddenAt<V, S>(h: P.Host<V, S>, p: Option<Later<V, S>>, a: Account) {
    p.Some? && GetsTurn(h, p.value.x, p.value.ts, a)
  }

  ghost predicate SomeHidden<V, S>(h: P.Host<V, S>, x: Books<V, S>, order: seq<Tx>, skip: Lanes) {
    exists a: Account :: HiddenAt(h, PopIn(h, x, order, skip, a), a)
  }

  /** Buckets that hide a turn hide one that is taken. */
  ghost predicate AllHiddenTaken<V, S>(h: P.Host<V, S>, x: Books<V, S>, order: seq<Tx>, skip: Lanes) {
    forall a: Account ::
      var p := PopIn(h, x, order, skip, a);
      HiddenAt(h, p, a) ==> IsTaken(h, p.value.x, p.value.ts, a)
  }

  lemma NonEmptyBucket(lane: EvmLane, a: Account)
    requires ValidLane(lane)
    ensures a in lane ==> lane[a] != []
  {
    if a in lane { assert ValidBucket(lane[a], a); }
  }

  /** Unless the plain head's bucket was dropped, both lanes show the same head. */
  lemma HeadsPaired(p: Params, plain: Lanes, skip: Lanes)
    requires ValidLane(plain.evm) && ValidLane(skip.evm) && AllConvert(plain) && plain.cosmos == skip.cosmos
    requires forall a :: Bucket(skip, a) == [] || Bucket(skip, a) == Bucket(plain, a)
    requires Current(p, plain).Some?
    requires var t := Current(p, plain).value; t.FromEvm? ==> Bucket(skip, t.evm.sender) != []
    ensures Current(p, skip) == Current(p, plain)
  {
    hide Current, ValidLane, AllConvert;
    forall a | a in skip.evm ensures a in plain.evm && plain.evm[a] == skip.evm[a] {
      NonEmptyBucket(skip.evm, a);
      assert Bucket(skip, a) == Bucket(plain, a);
    }
    HeadsAgree(p, plain, skip);
  }

  /** What a handler selects from here on is pending now. */
  lemma {:induction false} SelectedWerePending<V, S>(h: P.Host<V, S>, cascade: bool, b: P.Builder<V, S>, t: Tx)
    requires ValidLane(b.lanes.evm)
    ensures var run := P.Run(h, cascade, b);
      run.Built? ==>
        && b.block.selected <= run.b.block.selected
        && (t in run.b.block.selected[|b.block.selected|..] ==> IsPending(b.lanes, t))
    decreases P.MAX_ITERATIONS - b.iterations
  {
    hide AfterTx, Current, Advance, PopAccount, ValidLane, P.Consider, IsPending;
    P.PassCounts(h, cascade, b);
    var c := Current(h.params, b.lanes);
    if c.Some? {
      var l := AfterTx(h.params, b.lanes);
      SelectsCurrent(h, cascade, l.fromEvm, b.block, c.value);
      AdvancePending(h.params, b.lanes, t);
      NextEffect(h.params, b.lanes, 0);
      PopEffect(h.params, b.lanes, 0);
    }
    if P.Pass(h, cascade, b).Continue? {
      var next := P.Pass(h, cascade, b).b;
      SelectedWerePending(h, cascade, next, t);
      if P.Run(h, cascade, next).Built? {
        LaterPart(b.block.selected, next.block.selected, P.Run(h, cascade, next).b.block.selected, c.value);
      }
    }
  }

  lemma LaterPart(xs: seq<Tx>, ys: seq<Tx>, zs: seq<Tx>, t: Tx)
    requires (ys == xs || ys == xs + [t]) && ys <= zs
    ensures xs <= zs && forall u :: u in zs[|xs|..] ==> u == t || u in zs[|ys|..]
  {
    if ys != xs { assert zs[|xs|] == ys[|xs|] == t; }
    forall u | u in zs[|xs|..] ensures u == t || u in zs[|ys|..] {
      var i :| |xs| <= i < |zs| && zs[i] == u;
      if i >= |ys| { assert zs[|ys|..][i - |ys|] == u; }
    }
  }

  lemma SelectsCurrent<V, S>(h: P.Host<V, S>, cascade: bool, fromEvm: bool, k: P.Block<V, S>, t: Tx)
    ensures var k' := P.Consider(h, cascade, fromEvm, k, t).0;
      k'.selected == k.selected || k'.selected == k.selected + [t]
  {
  }

  /** A dropped bucket of which something is taken: the selections differ. */
  lemma DroppedDiffers<V(!new), S>(h: P.Host<V, S>, plain: P.Builder<V, S>, skip: P.Builder<V, S>, a: Account)
    requires Going(h, plain) && Short(plain) && ValidLane(skip.lanes.evm)
    requires plain.block.selected == skip.block.selected && Bucket(skip.lanes, a) == []
    requires IsTaken(h, BooksOf(plain.block), Order(h.params, plain.lanes), a)
    ensures P.Run(h, false, plain).Built?
    ensures P.Run(h, true, skip).Built? ==>
      P.Run(h, false, plain).b.block.selected != P.Run(h, true, skip).b.block.selected
  {
    hide Order, P.Run, ValidLane, Going, Short, Turns;
    PlainTakesTurns(h, plain);
    var turns := Turns(h, BooksOf(plain.block), Order(h.params, plain.lanes));
    var t :| t in turns && IsEvmOf(t, a);
    SelectedWerePending(h, true, skip, t);
    assert (plain.block.selected + turns)[|plain.block.selected|..] == turns;
  }

  /** Hidden turns stay the same when the points at which buckets are popped do. */
  lemma SamePops<V, S>(
    h: P.Host<V, S>, x: Books<V, S>, order: seq<Tx>, l: Lanes, x': Books<V, S>, order': seq<Tx>, l': Lanes)
    requires forall a: Account ::
      || PopIn(h, x, order, l, a) == PopIn(h, x', order', l', a)
      || (PopIn(h, x', order', l', a) == None && !HiddenAt(h, PopIn(h, x, order, l, a), a))
    ensures SomeHidden(h, x, order, l) <==> SomeHidden(h, x', order', l')
    ensures AllHiddenTaken(h, x, order, l) ==> AllHiddenTaken(h, x', order', l')
  {
    hide PopIn, GetsTurn;
    if SomeHidden(h, x, order, l) {
      var a: Account :| HiddenAt(h, PopIn(h, x, order, l, a), a);
      assert HiddenAt(h, PopIn(h, x', order', l', a), a);
    }
    if SomeHidden(h, x', order', l') {
      var a: Account :| HiddenAt(h, PopIn(h, x', order', l', a), a);
      assert HiddenAt(h, PopIn(h, x, order, l, a), a);
    }
  }

  /** The plain run visits a bucket the skip has dropped. */
  lemma DroppedStep<V(!new), S(!new)>(h: P.Host<V, S>, plain: P.Builder<V, S>, skip: P.Builder<V, S>)
    requires Paired(h, plain, skip)
    requires Current(h.params, plain.lanes).Some? && Current(h.params, plain.lanes).value.FromEvm?
    requires Bucket(skip.lanes, Current(h.params, plain.lanes).value.evm.sender) == []
    ensures var next := P.Pass(h, false, plain); var x := BooksOf(plain.block);
      var ts := Order(h.params, Advance(AfterTx(h.params, plain.lanes)));
      && next.Continue? && next.b.iterations == plain.iterations + 1 <= P.MAX_ITERATIONS
      && next.b.lanes == Advance(AfterTx(h.params, plain.lanes)) && BooksOf(next.b.block) == x
      && Paired(h, next.b, skip)
      && (SomeHidden(h, x, Order(h.params, plain.lanes), skip.lanes) <==> SomeHidden(h, x, ts, skip.lanes))
      && (AllHiddenTaken(h, x, Order(h.params, plain.lanes), skip.lanes) ==> AllHiddenTaken(h, x, ts, skip.lanes))
  {
    hide Ready, Fresh, RefusalsLeaveNoTrace, Current, AfterTx, Advance, ValidLane, AllConvert, P.Consider, Order,
      InTurn, P.Pass, Size, GetsTurn, AfterVisit, Full, Taken, Pops, PopPoint, SomeHidden, AllHiddenTaken;
    var t := Current(h.params, plain.lanes).value;
    var l := AfterTx(h.params, plain.lanes);
    var x := BooksOf(plain.block);
    GoingLanes(h, plain);
    CurrentIsHead(h.params, plain.lanes);
    OrderStep(h.params, plain.lanes);
    var ts := Order(h.params, Advance(l));
    ShortPass(h, plain);
    VisitFirst(h, x, t, ts, t.evm.sender);
    FullInTurn(h, x, t);
    OnePass(h, false, plain);
    NextEffect(h.params, plain.lanes, 0);
    NoAbort(h, false, l.fromEvm, plain.block, t, plain.lanes);
    ConsiderNoTurn(h, false, l.fromEvm, plain.block, t);
    forall a
      ensures Bucket(Advance(l), a) ==
        if a == t.evm.sender then Bucket(plain.lanes, a)[1..] else Bucket(plain.lanes, a)
      ensures GetsTurn(h, x, ts, a) ==> GetsTurn(h, x, [t] + ts, a)
      ensures PopIn(h, x, [t] + ts, skip.lanes, a) == PopIn(h, x, ts, skip.lanes, a)
    {
      NextEffect(h.params, plain.lanes, a);
      VisitFirst(h, x, t, ts, a);
      PopFirst(h, x, t, ts, a);
    }
    SamePops(h, x, [t] + ts, skip.lanes, x, ts, skip.lanes);
  }

  lemma SameBucket(l: Lanes, l': Lanes, a: Account)
    ensures l.evm == l'.evm ==> Bucket(l, a) == Bucket(l', a)
  {
  }

  lemma PairedAccount<V, S>(h: P.Host<V, S>, plain: Lanes, skip: Lanes, x: Books<V, S>, order: seq<Tx>, a: Account)
    requires LanesPaired(h, plain, skip, x, order)
    ensures Bucket(skip, a) == [] || Bucket(skip, a) == Bucket(plain, a)
    ensures Bucket(skip, a) == [] && Bucket(plain, a) != [] ==> !GetsTurn(h, x, order, a)
  {
    hide GetsTurn;
  }

  /** Both look at t: what holds for one account afterwards. */
  lemma CommonAccount<V, S>(
    h: P.Host<V, S>, plain: Lanes, skip: Lanes, x: Books<V, S>, t: Tx, ts: seq<Tx>, drops: bool, a: Account)
    requires ValidLane(plain.evm) && ValidLane(skip.evm) && LanesPaired(h, plain, skip, x, [t] + ts)
    requires Current(h.params, plain) == Some(t) == Current(h.params, skip) && !Full(h, x, t)
    requires drops ==> t.FromEvm? && !InTurn(h, x, t) && !GetsTurn(h, x, ts, t.evm.sender)
    ensures var p := Bucket(Advance(AfterTx(h.params, plain)), a); var s := Bucket(NextLanes(h, skip, drops), a);
      (s == [] || s == p) && (s == [] && p != [] ==> !GetsTurn(h, AfterVisit(h, x, t), ts, a))
  {
    PairedAccount(h, plain, skip, x, [t] + ts, a);
    if t.FromEvm? { PairedAccount(h, plain, skip, x, [t] + ts, t.evm.sender); }
    hide Current, AfterTx, Advance, PopAccount, ValidLane, InTurn, GetsTurn, AfterVisit, Full, LanesPaired, Bucket;
    CurrentIsHead(h.params, plain);
    CurrentIsHead(h.params, skip);
    NextEffect(h.params, plain, a);
    NextEffect(h.params, skip, a);
    PopEffect(h.params, skip, a);
    SameBucket(plain, Advance(AfterTx(h.params, plain)), a);
    SameBucket(skip, Advance(AfterTx(h.params, skip)), a);
    VisitFirst(h, x, t, ts, a);
    FullInTurn(h, x, t);
  }

  lemma CommonLanes<V, S>(
    h: P.Host<V, S>, plain: Lanes, skip: Lanes, x: Books<V, S>, t: Tx, ts: seq<Tx>, drops: bool)
    requires ValidLane(plain.evm) && ValidLane(skip.evm) && LanesPaired(h, plain, skip, x, [t] + ts)
    requires Current(h.params, plain) == Some(t) == Current(h.params, skip) && !Full(h, x, t)
    requires drops ==> t.FromEvm? && !InTurn(h, x, t) && !GetsTurn(h, x, ts, t.evm.sender)
    ensures LanesPaired(h, NextLanes(h, plain, false), NextLanes(h, skip, drops), AfterVisit(h, x, t), ts)
  {
    hide Current, AfterTx, Advance, PopAccount, ValidLane, InTurn, GetsTurn, AfterVisit, Full;
    NextEffect(h.params, plain, 0);
    NextEffect(h.params, skip, 0);
    PopEffect(h.params, skip, 0);
    forall a
      ensures var p := Bucket(Advance(AfterTx(h.params, plain)), a); var s := Bucket(NextLanes(h, skip, drops), a);
        (s == [] || s == p) && (s == [] && p != [] ==> !GetsTurn(h, AfterVisit(h, x, t), ts, a))
    {
      CommonAccount(h, plain, skip, x, t, ts, drops, a);
    }
  }

  /** A bucket that empties by shifting has no transaction left in the order. */
  lemma LastShift<V, S>(h: P.Host<V, S>, plain: Lanes, skip: Lanes, x: Books<V, S>, t: Tx, ts: seq<Tx>, a: Account)
    requires ValidLane(plain.evm) && ValidLane(skip.evm) && AllConvert(plain)
    requires LanesPaired(h, plain, skip, x, [t] + ts) && ts == Order(h.params, Advance(AfterTx(h.params, plain)))
    requires Current(h.params, plain) == Some(t) == Current(h.params, skip)
    ensures Bucket(skip, a) != [] && Bucket(NextLanes(h, skip, false), a) == [] ==> EvmYields(ts, a) == []
  {
    hide Current, AfterTx, Advance, ValidLane, GetsTurn, AllConvert, Size;
    var next := Advance(AfterTx(h.params, plain));
    NextEffect(h.params, plain, a);
    NextEffect(h.params, skip, a);
    NextsConvert(h.params, plain);
    DrainComplete(h.params, next, Size(next), a);
  }

  /** Where account a's bucket will be popped does not change by a common step, unless
      the step pops it and nothing is hidden. */
  lemma CommonPops<V, S>(
    h: P.Host<V, S>, plain: Lanes, skip: Lanes, x: Books<V, S>, t: Tx, ts: seq<Tx>, a: Account)
    requires ValidLane(plain.evm) && ValidLane(skip.evm) && AllConvert(plain)
    requires LanesPaired(h, plain, skip, x, [t] + ts) && ts == Order(h.params, Advance(AfterTx(h.params, plain)))
    requires Current(h.params, plain) == Some(t) == Current(h.params, skip) && !Full(h, x, t)
    requires Drops(h, x, t) ==> !GetsTurn(h, x, ts, t.evm.sender)
    ensures var before := PopIn(h, x, [t] + ts, skip, a);
      var after := PopIn(h, AfterVisit(h, x, t), ts, NextLanes(h, skip, Drops(h, x, t)), a);
      before == after || (after == None && !HiddenAt(h, before, a))
  {
    LastShift(h, plain, skip, x, t, ts, a);
    hide Current, AfterTx, Advance, PopAccount, ValidLane, AllConvert, InTurn, GetsTurn, AfterVisit, Full, Pops,
      PopPoint, LanesPaired, Order;
    CurrentIsHead(h.params, skip);
    NextEffect(h.params, skip, a);
    PopEffect(h.params, skip, a);
    PopFirst(h, x, t, ts, a);
    if EvmYields(ts, a) == [] { NothingPopped(h, AfterVisit(h, x, t), ts, a); }
  }

  /** Both handlers look at t, and the skip does not drop a turn: they stop with the
      same selection or stay paired, hiding what they hid. */
  lemma CommonPass<V(!new), S(!new)>(h: P.Host<V, S>, plain: P.Builder<V, S>, skip: P.Builder<V, S>)
    requires Paired(h, plain, skip)
    requires Current(h.params, plain.lanes).Some? && Current(h.params, skip.lanes) == Current(h.params, plain.lanes)
    requires var t := Current(h.params, plain.lanes).value; var x := BooksOf(plain.block);
      Drops(h, x, t) ==> !GetsTurn(h, x, Order(h.params, Advance(AfterTx(h.params, plain.lanes))), t.evm.sender)
    ensures var p := P.Pass(h, false, plain); var s := P.Pass(h, true, skip);
      var x := BooksOf(plain.block); var order := Order(h.params, plain.lanes);
      || (p.Finish? && s.Finish? && p.b.block.selected == s.b.block.selected && !SomeHidden(h, x, order, skip.lanes))
      || (&& p.Continue? && s.Continue? && p.b.iterations == plain.iterations + 1 <= P.MAX_ITERATIONS
          && Paired(h, p.b, s.b)
          && var x' := BooksOf(p.b.block); var order' := Order(h.params, p.b.lanes);
          && (SomeHidden(h, x, order, skip.lanes) <==> SomeHidden(h, x', order', s.b.lanes))
          && (AllHiddenTaken(h, x, order, skip.lanes) ==> AllHiddenTaken(h, x', order', s.b.lanes)))
  {
    hide Ready, Fresh, RefusalsLeaveNoTrace, Current, AfterTx, Advance, PopAccount, ValidLane, AllConvert, P.Consider,
      Order, InTurn, P.Pass, Size, GetsTurn, LanesPaired, AfterVisit, Full, Taken, Pops, NextLanes, PopPoint,
      SomeHidden, AllHiddenTaken, Counted, PopIn, HiddenAt;
    var t := Current(h.params, plain.lanes).value;
    var x := BooksOf(plain.block);
    GoingLanes(h, plain);
    GoingLanes(h, skip);
    CurrentIsHead(h.params, plain.lanes);
    CurrentIsHead(h.params, skip.lanes);
    OrderStep(h.params, plain.lanes);
    NextIsAdvance(h, plain.lanes);
    var ts := Order(h.params, Advance(AfterTx(h.params, plain.lanes)));
    SameBooks(plain.block, skip.block);
    ShortPass(h, plain);
    OnePass(h, false, plain);
    OnePass(h, true, skip);
    FullInTurn(h, x, t);
    if Full(h, x, t) {
      FullHidesNothing(h, x, t, ts, skip.lanes);
    } else {
      var drops := Drops(h, x, t);
      NoAbort(h, false, AfterTx(h.params, plain.lanes).fromEvm, plain.block, t, plain.lanes);
      ConsiderAlike(h, AfterTx(h.params, plain.lanes).fromEvm, plain.block, skip.block, t);
      CommonLanes(h, plain.lanes, skip.lanes, x, t, ts, drops);
      forall a: Account
        ensures var before := PopIn(h, x, [t] + ts, skip.lanes, a);
          var after := PopIn(h, AfterVisit(h, x, t), ts, NextLanes(h, skip.lanes, drops), a);
          before == after || (after == None && !HiddenAt(h, before, a))
      {
        CommonPops(h, plain.lanes, skip.lanes, x, t, ts, a);
      }
      SamePops(h, x, [t] + ts, skip.lanes, AfterVisit(h, x, t), ts, NextLanes(h, skip.lanes, drops));
    }
  }

  lemma NextIsAdvance<V, S>(h: P.Host<V, S>, l: Lanes)
    ensures NextLanes(h, l, false) == Advance(AfterTx(h.params, l))
    ensures NextLanes(h, l, true) == PopAccount(AfterTx(h.params, l))
  {
  }

  lemma FullHidesNothing<V, S>(h: P.Host<V, S>, x: Books<V, S>, t: Tx, ts: seq<Tx>, skip: Lanes)
    requires Full(h, x, t)
    ensures !SomeHidden(h, x, [t] + ts, skip)
  {
    FullInTurn(h, x, t);
    hide Full, Pops, InTurn, PopPoint, GetsTurn;
    forall a: Account ensures PopIn(h, x, [t] + ts, skip, a) == None {
      PopFirst(h, x, t, ts, a);
    }
  }

  /** Both handlers look at t and the skip drops a turn that is taken. */
  lemma DropStep<V(!new), S(!new)>(h: P.Host<V, S>, plain: P.Builder<V, S>, skip: P.Builder<V, S>)
    requires Paired(h, plain, skip)
    requires Current(h.params, plain.lanes).Some? && Current(h.params, skip.lanes) == Current(h.params, plain.lanes)
    requires var t := Current(h.params, plain.lanes).value; var x := BooksOf(plain.block);
      Drops(h, x, t) && GetsTurn(h, x, Order(h.params, Advance(AfterTx(h.params, plain.lanes))), t.evm.sender)
    requires AllHiddenTaken(h, BooksOf(plain.block), Order(h.params, plain.lanes), skip.lanes)
    ensures SomeHidden(h, BooksOf(plain.block), Order(h.params, plain.lanes), skip.lanes)
    ensures var p := P.Run(h, false, plain); var s := P.Run(h, true, skip);
      p.Built? && (s.Built? ==> p.b.block.selected != s.b.block.selected)
  {
    hide Ready, Fresh, RefusalsLeaveNoTrace, Current, AfterTx, Advance, PopAccount, ValidLane, AllConvert, P.Consider,
      Order, InTurn, P.Pass, Size, GetsTurn, LanesPaired, AfterVisit, Full, Taken, Pops, PopPoint,
      IsTaken, Counted, OneIf;
    var t := Current(h.params, plain.lanes).value;
    var x := BooksOf(plain.block);
    var a := t.evm.sender;
    GoingLanes(h, plain);
    GoingLanes(h, skip);
    CurrentIsHead(h.params, plain.lanes);
    CurrentIsHead(h.params, skip.lanes);
    OrderStep(h.params, plain.lanes);
    var ts := Order(h.params, Advance(AfterTx(h.params, plain.lanes)));
    SameBooks(plain.block, skip.block);
    ShortPass(h, plain);
    OnePass(h, false, plain);
    OnePass(h, true, skip);
    FullInTurn(h, x, t);
    PopFirst(h, x, t, ts, a);
    assert PopIn(h, x, [t] + ts, skip.lanes, a) == Some(Later(x, ts));
    assert HiddenAt(h, PopIn(h, x, [t] + ts, skip.lanes, a), a);
    PopEffect(h.params, skip.lanes, a);
    var next, dropped := P.Pass(h, false, plain).b, P.Pass(h, true, skip).b;
    GoingLanes(h, dropped);
    DroppedDiffers(h, next, dropped, a);
  }

  lemma BothEmpty<V(!new), S(!new)>(h: P.Host<V, S>, plain: P.Builder<V, S>, skip: P.Builder<V, S>)
    requires Paired(h, plain, skip) && Current(h.params, plain.lanes).None?
    ensures P.Run(h, false, plain) == P.Built(plain) && P.Run(h, true, skip) == P.Built(skip)
    ensures !SomeHidden(h, BooksOf(plain.block), Order(h.params, plain.lanes), skip.lanes)
  {
    hide P.Pass, Ready, Fresh, RefusalsLeaveNoTrace, PopPoint, GetsTurn;
    GoingLanes(h, plain);
    GoingLanes(h, skip);
    EmptyIsExhausted(h.params, plain.lanes);
    EmptyIsExhausted(h.params, skip.lanes);
    assert forall a :: Bucket(plain.lanes, a) == [];
    forall a ensures Bucket(skip.lanes, a) == [] && a !in skip.lanes.evm {
      assert Bucket(skip.lanes, a) == Bucket(plain.lanes, a);
      NonEmptyBucket(skip.lanes.evm, a);
    }
    FinishesEmpty(h, false, plain);
    FinishesEmpty(h, true, skip);
  }

  lemma PairedLanes<V(!new), S(!new)>(h: P.Host<V, S>, plain: P.Builder<V, S>, skip: P.Builder<V, S>)
    requires Paired(h, plain, skip)
    ensures plain.lanes.cosmos == skip.lanes.cosmos
    ensures forall a :: Bucket(skip.lanes, a) == [] || Bucket(skip.lanes, a) == Bucket(plain.lanes, a)
  {
  }

  lemma {:induction false} InStep<V(!new), S(!new)>(h: P.Host<V, S>, plain: P.Builder<V, S>, skip: P.Builder<V, S>)
    requires Paired(h, plain, skip)
    requires AllHiddenTaken(h, BooksOf(plain.block), Order(h.params, plain.lanes), skip.lanes)
    ensures var p := P.Run(h, false, plain); var s := P.Run(h, true, skip);
      && p.Built? && s.Built?
      && (p.b.block.selected == s.b.block.selected <==>
          !SomeHidden(h, BooksOf(plain.block), Order(h.params, plain.lanes), skip.lanes))
    decreases P.MAX_ITERATIONS - plain.iterations
  {
    hide Ready, Fresh, RefusalsLeaveNoTrace, Current, AfterTx, Advance, PopAccount, ValidLane, AllConvert, P.Consider,
      Order, P.Pass, Size, GetsTurn, LanesPaired, SomeHidden, AllHiddenTaken, Pops, Counted;
    var c, x := Current(h.params, plain.lanes), BooksOf(plain.block);
    GoingLanes(h, plain);
    GoingLanes(h, skip);
    NeverFails(h, true, skip);
    if c.None? {
      BothEmpty(h, plain, skip);
    } else if c.value.FromEvm? && Bucket(skip.lanes, c.value.evm.sender) == [] {
      DroppedStep(h, plain, skip);
      InStep(h, P.Pass(h, false, plain).b, skip);
    } else {
      PairedLanes(h, plain, skip);
      HeadsPaired(h.params, plain.lanes, skip.lanes);
      var ts := Order(h.params, Advance(AfterTx(h.params, plain.lanes)));
      if Drops(h, x, c.value) && GetsTurn(h, x, ts, c.value.evm.sender) {
        DropStep(h, plain, skip);
      } else {
        CommonPass(h, plain, skip);
        if P.Pass(h, false, plain).Continue? {
          InStep(h, P.Pass(h, false, plain).b, P.Pass(h, true, skip).b);
        }
      }
    }
  }

  // ---------- the exact condition ----------

  lemma StartGoing<V(!new), S(!new)>(h: P.Host<V, S>, l: Lanes, v: V, s: S)
    requires RefusalsLeaveNoTrace(h) && Ready(h, l) && Size(l) <= 8192
    ensures Going(h, P.Start(l, v, s)) && Short(P.Start(l, v, s)) && Paired(h, P.Start(l, v, s), P.Start(l, v, s))
  {
    hide Ready, Order, Size, RefusalsLeaveNoTrace;
  }

  function NoBooks<V, S>(v: V, s: S): Books<V, S> { Books(map[], v, s) }

  /** What the plain handler selects, for any selector and any verifier whose refusals
      leave no trace: the transactions taken in the visiting order, nothing else. */
  lemma PlainSelection<V(!new), S(!new)>(h: P.Host<V, S>, l: Lanes, v: V, s: S)
    requires RefusalsLeaveNoTrace(h) && Ready(h, l) && Size(l) <= 8192
    ensures var plain := P.Run(h, false, P.Start(l, v, s));
      plain.Built? && plain.b.block.selected == Turns(h, NoBooks(v, s), Order(h.params, l))
  {
    hide P.Run, Ready, Going, Short, Order, Size, RefusalsLeaveNoTrace;
    StartGoing(h, l, v, s);
    PlainTakesTurns(h, P.Start(l, v, s));
  }

  /** No bucket is popped while a later transaction of it would get its turn. */
  ghost predicate HidesNothing<V, S>(h: P.Host<V, S>, x: Books<V, S>, order: seq<Tx>) {
    forall a: Account :: !Hidden(h, x, order, a)
  }

  /** Of every bucket that hides a turn the selector takes something that is hidden. */
  ghost predicate HiddenIsTaken<V, S>(h: P.Host<V, S>, x: Books<V, S>, order: seq<Tx>) {
    forall a: Account :: Hidden(h, x, order, a) ==> HiddenTaken(h, x, order, a)
  }

  lemma HiddenAtStart<V, S>(h: P.Host<V, S>, l: Lanes, x: Books<V, S>)
    requires ValidLane(l.evm) && AllConvert(l)
    ensures SomeHidden(h, x, Order(h.params, l), l) <==> !HidesNothing(h, x, Order(h.params, l))
    ensures HiddenIsTaken(h, x, Order(h.params, l)) ==> AllHiddenTaken(h, x, Order(h.params, l), l)
  {
    hide ValidLane, AllConvert, Order, PopPoint, GetsTurn, IsTaken;
    var order := Order(h.params, l);
    forall a: Account ensures PopIn(h, x, order, l, a) == PopPoint(h, x, order, a) {
      OrderYields(h.params, l, a);
      if Bucket(l, a) == [] { NothingPopped(h, x, order, a); }
    }
    if SomeHidden(h, x, order, l) {
      var a: Account :| HiddenAt(h, PopIn(h, x, order, l, a), a);
      assert Hidden(h, x, order, a);
    }
    if !HidesNothing(h, x, order) {
      var a: Account :| Hidden(h, x, order, a);
      assert HiddenAt(h, PopIn(h, x, order, l, a), a);
    }
    if HiddenIsTaken(h, x, order) {
      forall a: Account | HiddenAt(h, PopIn(h, x, order, l, a), a)
        ensures var p := PopIn(h, x, order, l, a); IsTaken(h, p.value.x, p.value.ts, a)
      {
        assert Hidden(h, x, order, a);
      }
    }
  }

  /** The exact condition, for any verifier whose refusals leave no trace and any
      selector: the two handlers select the same transactions if and only if no
      bucket hides a turn, provided that hidden turns do not all go to transactions
      the selector has no room for. */
  lemma CascadeExactIff<V(!new), S(!new)>(h: P.Host<V, S>, l: Lanes, v: V, s: S)
    requires RefusalsLeaveNoTrace(h) && Ready(h, l) && Size(l) <= 8192
    requires HiddenIsTaken(h, NoBooks(v, s), Order(h.params, l))
    ensures var plain := P.Run(h, false, P.Start(l, v, s)); var skip := P.Run(h, true, P.Start(l, v, s));
      && plain.Built? && skip.Built?
      && (plain.b.block.selected == skip.b.block.selected <==> HidesNothing(h, NoBooks(v, s), Order(h.params, l)))
  {
    hide P.Run, Ready, Going, Short, Order, Size, HidesNothing, HiddenIsTaken, SomeHidden, AllHiddenTaken,
      RefusalsLeaveNoTrace;
    var start := P.Start(l, v, s);
    StartGoing(h, l, v, s);
    GoingLanes(h, start);
    HiddenAtStart(h, l, NoBooks(v, s));
    InStep(h, start, start);
  }

  /** In particular, for every selector: where nothing is hidden the skip changes nothing. */
  lemma NothingHiddenEqual<V(!new), S(!new)>(h: P.Host<V, S>, l: Lanes, v: V, s: S)
    requires RefusalsLeaveNoTrace(h) && Ready(h, l) && Size(l) <= 8192
    requires HidesNothing(h, NoBooks(v, s), Order(h.params, l))
    ensures var plain := P.Run(h, false, P.Start(l, v, s)); var skip := P.Run(h, true, P.Start(l, v, s));
      plain.Built? && skip.Built? && plain.b.block.selected == skip.b.block.selected
  {
    hide P.Run, Ready, Order, Size, Hidden, RefusalsLeaveNoTrace;
    CascadeExactIff(h, l, v, s);
  }

  // ---------- when the proviso holds ----------

  /** Everything whose turn comes fits, until the selector says to stop. */
  ghost predicate Fits<V, S>(h: P.Host<V, S>, x: Books<V, S>, ts: seq<Tx>)
    decreases ts
  {
    ts == [] ||
    (&& (InTurn(h, x, ts[0]) ==> Taken(h, x, ts[0]))
     && (Full(h, x, ts[0]) || Fits(h, AfterVisit(h, x, ts[0]), ts[1..])))
  }

  lemma {:induction false} FitsTaken<V, S>(h: P.Host<V, S>, x: Books<V, S>, ts: seq<Tx>, a: Account)
    requires Fits(h, x, ts)
    ensures GetsTurn(h, x, ts, a) ==> IsTaken(h, x, ts, a)
    decreases ts
  {
    hide InTurn, AfterVisit, IsEvmOf, Full, Taken;
    if GetsTurn(h, x, ts, a) {
      if IsEvmOf(ts[0], a) && InTurn(h, x, ts[0]) {
        assert ts[0] in Turns(h, x, ts);
      } else {
        FitsTaken(h, AfterVisit(h, x, ts[0]), ts[1..], a);
        var t :| t in Turns(h, AfterVisit(h, x, ts[0]), ts[1..]) && IsEvmOf(t, a);
        assert t in Turns(h, x, ts);
      }
    }
  }

  lemma {:induction false} FitsLater<V, S>(h: P.Host<V, S>, x: Books<V, S>, ts: seq<Tx>, a: Account)
    requires Fits(h, x, ts)
    ensures var p := PopPoint(h, x, ts, a); p.Some? ==> Fits(h, p.value.x, p.value.ts)
    decreases ts
  {
    hide InTurn, AfterVisit, IsEvmOf, Full, Taken, Pops;
    if ts != [] {
      FullInTurn(h, x, ts[0]);
      if !Full(h, x, ts[0]) { FitsLater(h, AfterVisit(h, x, ts[0]), ts[1..], a); }
    }
  }

  /** Where everything whose turn comes fits, the condition is exact as it stands. */
  lemma CascadeExactFits<V(!new), S(!new)>(h: P.Host<V, S>, l: Lanes, v: V, s: S)
    requires RefusalsLeaveNoTrace(h) && Ready(h, l) && Size(l) <= 8192
    requires Fits(h, NoBooks(v, s), Order(h.params, l))
    ensures var plain := P.Run(h, false, P.Start(l, v, s)); var skip := P.Run(h, true, P.Start(l, v, s));
      && plain.Built? && skip.Built?
      && (plain.b.block.selected == skip.b.block.selected <==> HidesNothing(h, NoBooks(v, s), Order(h.params, l)))
  {
    hide P.Run, Ready, Order, Size, HidesNothing, RefusalsLeaveNoTrace, PopPoint, GetsTurn, IsTaken, Fits;
    var x, order := NoBooks(v, s), Order(h.params, l);
    forall a: Account | Hidden(h, x, order, a) ensures HiddenTaken(h, x, order, a) {
      FitsLater(h, x, order, a);
      var p := PopPoint(h, x, order, a).value;
      FitsTaken(h, p.x, p.ts, a);
    }
    CascadeExactIff(h, l, v, s);
  }
}
