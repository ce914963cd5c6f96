/** Shorter forms of the exact condition where only nonces decide, and mempools
    that fail it. */
module CascadeForms {
  import opened Common
  import opened MempoolIterator
  import opened IteratorRuns
  import opened BuilderLaws
  import opened CascadeSkip
  import opened NonceCascade
  import opened CascadeExact
  import P = Proposal

  /** Nothing but the nonce rule refuses, permanently, and everything fits. */
  ghost predicate OnlyNonces<W(!new), S(!new)>(r: Rules<W, S>) {
    && (forall v, t :: r.permanent(v, t))
    && (forall v, t :: r.extra(v, t).1.Accepted?)
    && (forall s, t :: r.select(s, t).added && !r.select(s, t).stop)
  }

  lemma EvmSequences<W, S>(r: Rules<W, S>, e: EvmTx)
    ensures Sequences(r, FromEvm(e)) == [P.SignerSeq(e.sender, e.nonce)]
    ensures forall a :: Mentions(Sequences(r, FromEvm(e)), a) <==> a == e.sender
  {
    assert Sequences(r, FromEvm(e))[0].signer == e.sender;
  }

  // ---------- sequences recorded and nonces ----------

  /** The recorded sequences agree with the verifier's nonces. */
  ghost predicate Synced<W, S>(x: Books<Ledger<W>, S>) {
    forall a :: a in x.seqs ==> Following(x.seqs[a]) == NonceOf(x.v.nonces, a)
  }

  /** Visiting t moves account a's nonce on. */
  predicate Enters<W, S>(r: Rules<W, S>, x: Books<Ledger<W>, S>, t: Tx, a: Account) {
    InTurn(NonceHost(r), x, t) && Mentions(Sequences(r, t), a)
  }

  lemma {:induction false} CheckRecords(
    seqs: map<Account, uint64>, sd: seq<P.SignerSeq>, acc: map<Account, uint64>, v: Nonces)
    requires Matches(v, sd) && forall a :: a in acc ==> acc[a] == NonceOf(v, a)
    ensures var m := P.CheckSigners(seqs, sd, acc);
      m.Some? ==>
        && (forall a :: a in m.value <==> a in acc || Mentions(sd, a))
        && (forall a :: a in m.value ==> m.value[a] == NonceOf(v, a))
    decreases sd
  {
    hide NonceOf;
    if sd != [] {
      assert sd == [sd[0]] + sd[1..];
      CheckRecords(seqs, sd[1..], acc[sd[0].signer := sd[0].sequence], v);
    }
  }

  /** When the nonces match, the check against the block passes too. */
  lemma MatchPassesCheck(seqs: map<Account, uint64>, sd: seq<P.SignerSeq>, v: Nonces)
    requires Matches(v, sd) && forall a :: a in seqs ==> Following(seqs[a]) == NonceOf(v, a)
    ensures var m := P.CheckSigners(seqs, sd, map[]);
      && m.Some?
      && (forall a :: a in m.value <==> Mentions(sd, a))
      && (forall a :: a in m.value ==> m.value[a] == NonceOf(v, a))
  {
    CheckExact(seqs, sd, map[]);
    CheckRecords(seqs, sd, map[], v);
  }

  /** With the books in agreement, the verifier alone decides whose turn it is. */
  lemma TurnIsVerdict<W, S>(r: Rules<W, S>, x: Books<Ledger<W>, S>, t: Tx)
    requires Synced(x)
    ensures InTurn(NonceHost(r), x, t) <==> Verify(r, x.v, t).1.Accepted?
  {
    hide P.CheckSigners, NonceOf, Following, Bump;
    if Verify(r, x.v, t).1.Accepted? && !Unordered(r, t) {
      MatchPassesCheck(x.seqs, SignersOf(r, t), x.v.nonces);
    }
  }

  /** A visit keeps the books in agreement if the selector takes what is in turn. */
  lemma VisitSynced<W, S>(r: Rules<W, S>, x: Books<Ledger<W>, S>, t: Tx, a: Account)
    requires Synced(x) && (InTurn(NonceHost(r), x, t) ==> Taken(NonceHost(r), x, t))
    ensures var y := AfterVisit(NonceHost(r), x, t); var n := NonceOf(x.v.nonces, a);
      && (a in y.seqs <==> a in x.seqs || Enters(r, x, t, a))
      && NonceOf(y.v.nonces, a) == (if Enters(r, x, t, a) then Following(n) else n)
      && (a in y.seqs ==> Following(y.seqs[a]) == NonceOf(y.v.nonces, a))
  {
    hide P.CheckSigners, P.Record, NonceOf, Following, Bump, Mentions;
    NoneMentioned(a);
    VerifyMoves(r, x.v, t, a);
    if InTurn(NonceHost(r), x, t) && !Unordered(r, t) {
      MatchPassesCheck(x.seqs, SignersOf(r, t), x.v.nonces);
      RecordEffect(x.seqs, P.CheckSigners(x.seqs, SignersOf(r, t), map[]).value, a);
    }
  }

  lemma NoneMentioned(a: Account)
    ensures !Mentions([], a)
  {
  }

  lemma AfterSynced<W, S>(r: Rules<W, S>, x: Books<Ledger<W>, S>, t: Tx)
    requires Synced(x) && (InTurn(NonceHost(r), x, t) ==> Taken(NonceHost(r), x, t))
    ensures Synced(AfterVisit(NonceHost(r), x, t))
  {
    hide InTurn, Taken, AfterVisit, Enters, NonceOf, Following;
    var y := AfterVisit(NonceHost(r), x, t);
    forall a | a in y.seqs ensures Following(y.seqs[a]) == NonceOf(y.v.nonces, a) {
      VisitSynced(r, x, t, a);
    }
  }

  // ---------- where only nonces decide ----------

  /** What a visit does where only nonces decide. */
  lemma NonceVisit<W(!new), S(!new)>(r: Rules<W, S>, x: Books<Ledger<W>, S>, t: Tx, a: Account)
    requires OnlyNonces(r) && Synced(x)
    ensures var h := NonceHost(r); var y := AfterVisit(h, x, t); var n := NonceOf(x.v.nonces, a);
      && !Full(h, x, t) && (InTurn(h, x, t) ==> Taken(h, x, t)) && Synced(y)
      && (a in y.seqs <==> a in x.seqs || Enters(r, x, t, a))
      && NonceOf(y.v.nonces, a) == (if Enters(r, x, t, a) then Following(n) else n)
      && (IsEvmOf(t, a) ==>
            && (InTurn(h, x, t) <==> t.evm.nonce == n) && (Enters(r, x, t, a) <==> InTurn(h, x, t))
            && (Pops(h, x, t) <==> !InTurn(h, x, t) && a !in x.seqs))
  {
    TakesTurns(r, x, t);
    AfterSynced(r, x, t);
    VisitSynced(r, x, t, a);
    if IsEvmOf(t, a) { EvmVisit(r, x, t.evm); }
    hide InTurn, Taken, Full, AfterVisit, Synced, OnlyNonces, Pops, NonceOf, Following;
    if IsEvmOf(t, a) { EvmSequences(r, t.evm); }
  }

  lemma TakesTurns<W(!new), S(!new)>(r: Rules<W, S>, x: Books<Ledger<W>, S>, t: Tx)
    requires OnlyNonces(r)
    ensures !Full(NonceHost(r), x, t) && (InTurn(NonceHost(r), x, t) ==> Taken(NonceHost(r), x, t))
  {
  }

  lemma EvmVisit<W(!new), S(!new)>(r: Rules<W, S>, x: Books<Ledger<W>, S>, e: EvmTx)
    requires OnlyNonces(r) && Synced(x)
    ensures var t := FromEvm(e); var right := e.nonce == NonceOf(x.v.nonces, e.sender);
      && (InTurn(NonceHost(r), x, t) <==> right)
      && (Pops(NonceHost(r), x, t) <==> !right && e.sender !in x.seqs)
  {
    hide NonceOf, Bump, P.CheckSigners;
    var sd := [P.SignerSeq(e.sender, e.nonce)];
    EvmSequences(r, e);
    assert SignersOf(r, FromEvm(e)) == sd && sd[0] in sd;
    TurnIsVerdict(r, x, FromEvm(e));
    CheckExact(x.seqs, sd, map[]);
  }

  /** Once the account is in the block its bucket is not popped any more. */
  lemma {:induction false} InBlockNotPopped<W(!new), S(!new)>(
    r: Rules<W, S>, x: Books<Ledger<W>, S>, ts: seq<Tx>, a: Account)
    requires OnlyNonces(r) && Synced(x) && a in x.seqs
    ensures PopPoint(NonceHost(r), x, ts, a) == None
    decreases ts
  {
    hide OnlyNonces, Synced, AfterVisit, Full, Taken, Pops, Enters, InTurn;
    if ts != [] {
      NonceVisit(r, x, ts[0], a);
      InBlockNotPopped(r, AfterVisit(NonceHost(r), x, ts[0]), ts[1..], a);
    }
  }

  /** The condition where only nonces decide: the account's first EVM transaction is
      visited out of turn, before any transaction of the account had its turn, and
      a later EVM one gets its turn. */
  lemma HiddenByNonces<W(!new), S(!new)>(r: Rules<W, S>, x: Books<Ledger<W>, S>, ts: seq<Tx>, a: Account)
    requires OnlyNonces(r) && Synced(x) && a !in x.seqs && ts != []
    ensures var h := NonceHost(r);
      Hidden(h, x, ts, a) <==>
        if IsEvmOf(ts[0], a) then !InTurn(h, x, ts[0]) && GetsTurn(h, x, ts[1..], a)
        else !Enters(r, x, ts[0], a) && Hidden(h, AfterVisit(h, x, ts[0]), ts[1..], a)
  {
    hide OnlyNonces, Synced, AfterVisit, Full, Taken, Pops, Enters, GetsTurn, InTurn;
    NonceVisit(r, x, ts[0], a);
    if Enters(r, x, ts[0], a) { InBlockNotPopped(r, AfterVisit(NonceHost(r), x, ts[0]), ts[1..], a); }
  }

  // ---------- accounts that use one lane ----------

  /** No pending Cosmos transaction is checked against account a's nonce. */
  ghost predicate CosmosApart<W, S>(r: Rules<W, S>, cosmos: seq<CosmosTx>, a: Account) {
    forall c <- cosmos :: !Mentions(Sequences(r, FromCosmos(c)), a)
  }

  ghost predicate HasNonce(bucket: seq<EvmTx>, n: uint64) { exists e <- bucket :: e.nonce == n }

  lemma HasNonceCons(e: EvmTx, bucket: seq<EvmTx>, n: uint64)
    ensures HasNonce([e] + bucket, n) <==> e.nonce == n || HasNonce(bucket, n)
    ensures !HasNonce([], n)
  {
    assert e in [e] + bucket;
  }

  lemma YieldsStep(ts: seq<Tx>, a: Account)
    requires ts != []
    ensures IsEvmOf(ts[0], a) ==> EvmYields(ts, a) == [ts[0].evm] + EvmYields(ts[1..], a)
    ensures IsEvmOf(ts[0], a) ==> EvmYields(ts, a)[1..] == EvmYields(ts[1..], a)
    ensures !IsEvmOf(ts[0], a) ==> EvmYields(ts, a) == EvmYields(ts[1..], a)
    ensures forall c <- CosmosYields(ts[1..]) :: c in CosmosYields(ts)
    ensures ts[0].FromCosmos? ==> ts[0].cosmos in CosmosYields(ts)
  {
  }

  lemma OthersDoNotEnter<W, S>(r: Rules<W, S>, x: Books<Ledger<W>, S>, t: Tx, cosmos: seq<CosmosTx>, a: Account)
    requires CosmosApart(r, cosmos, a) && (t.FromCosmos? ==> t.cosmos in cosmos)
    ensures !IsEvmOf(t, a) ==> !Enters(r, x, t, a)
  {
    hide Sequences;
    if t.FromEvm? { EvmSequences(r, t.evm); }
  }

  /** Without Cosmos transactions of the account, its EVM ones wait for its nonce. */
  lemma {:induction false} TurnByNonce<W(!new), S(!new)>(
    r: Rules<W, S>, x: Books<Ledger<W>, S>, ts: seq<Tx>, a: Account)
    requires OnlyNonces(r) && Synced(x) && CosmosApart(r, CosmosYields(ts), a)
    ensures var h := NonceHost(r); var n := NonceOf(x.v.nonces, a); var q := EvmYields(ts, a);
      && (GetsTurn(h, x, ts, a) <==> HasNonce(q, n))
      && (a !in x.seqs ==> (Hidden(h, x, ts, a) <==> q != [] && q[0].nonce != n && HasNonce(q[1..], n)))
    decreases ts
  {
    hide OnlyNonces, Synced, InTurn, AfterVisit, Full, Taken, Pops, Enters, Mentions, Sequences, NonceOf,
      Following, HasNonce;
    var h, n := NonceHost(r), NonceOf(x.v.nonces, a);
    if ts == [] {
      HasNonceEmpty(n);
    } else {
      var t := ts[0];
      NonceVisit(r, x, t, a);
      if a !in x.seqs { HiddenByNonces(r, x, ts, a); }
      YieldsStep(ts, a);
      OthersDoNotEnter(r, x, t, CosmosYields(ts), a);
      FullInTurn(h, x, t);
      if IsEvmOf(t, a) { HasNonceCons(t.evm, EvmYields(ts[1..], a), n); }
      TurnByNonce(r, AfterVisit(h, x, t), ts[1..], a);
    }
  }

  lemma HasNonceEmpty(n: uint64)
    ensures !HasNonce([], n)
  {
  }

  /** A bucket that starts at the next nonce hides nothing, whatever the Cosmos
      lane carries for the account. */
  lemma {:induction false} StartsRight<W(!new), S(!new)>(
    r: Rules<W, S>, x: Books<Ledger<W>, S>, ts: seq<Tx>, a: Account)
    requires OnlyNonces(r) && Synced(x) && a !in x.seqs
    requires var q := EvmYields(ts, a); q == [] || q[0].nonce == NonceOf(x.v.nonces, a)
    ensures !Hidden(NonceHost(r), x, ts, a)
    decreases ts
  {
    hide OnlyNonces, Synced, InTurn, AfterVisit, Full, Taken, Pops, Enters, NonceOf, Following, GetsTurn;
    if ts != [] {
      NonceVisit(r, x, ts[0], a);
      HiddenByNonces(r, x, ts, a);
      YieldsStep(ts, a);
      if !IsEvmOf(ts[0], a) && !Enters(r, x, ts[0], a) {
        StartsRight(r, AfterVisit(NonceHost(r), x, ts[0]), ts[1..], a);
      }
    }
  }

  lemma HiddenIsBehindLow<W(!new), S(!new)>(r: Rules<W, S>, l: Lanes, x: Books<Ledger<W>, S>, a: Account)
    requires OnlyNonces(r) && Synced(x) && a !in x.seqs && ValidLane(l.evm) && AllConvert(l)
    requires var q := Bucket(l, a);
      q != [] && q[0].nonce != NonceOf(x.v.nonces, a) ==> CosmosApart(r, l.cosmos, a)
    ensures Hidden(NonceHost(r), x, Order(r.params, l), a) <==> !NotBehindLow(Bucket(l, a), NonceOf(x.v.nonces, a))
  {
    hide OnlyNonces, Synced, ValidLane, AllConvert, Hidden, Order, CosmosApart, Sequences, NonceOf;
    OrderYields(r.params, l, a);
    BucketSorted(l, a);
    var q := Bucket(l, a);
    if q == [] || q[0].nonce == NonceOf(x.v.nonces, a) {
      StartsRight(r, x, Order(r.params, l), a);
    } else {
      TurnByNonce(r, x, Order(r.params, l), a);
      BehindLowIsHidden(q, NonceOf(x.v.nonces, a));
    }
  }

  lemma BehindLowIsHidden(q: seq<EvmTx>, n: uint64)
    requires q != [] && q[0].nonce != n && forall i, j :: 0 <= i < j < |q| ==> q[i].nonce < q[j].nonce
    ensures HasNonce(q[1..], n) <==> !NotBehindLow(q, n)
  {
    if !NotBehindLow(q, n) {
      var e :| e in q && e.nonce == n;
      assert e in q[1..];
    }
    if HasNonce(q[1..], n) {
      var e :| e in q[1..] && e.nonce == n;
      assert e in q;
    }
  }

  /** Where only nonces decide everything in turn is taken. */
  lemma {:induction false} NoncesFit<W(!new), S(!new)>(r: Rules<W, S>, x: Books<Ledger<W>, S>, ts: seq<Tx>)
    requires OnlyNonces(r)
    ensures Fits(NonceHost(r), x, ts)
    decreases ts
  {
    hide OnlyNonces, InTurn, Taken, Full, AfterVisit;
    if ts != [] {
      TakesTurns(r, x, ts[0]);
      NoncesFit(r, AfterVisit(NonceHost(r), x, ts[0]), ts[1..]);
    }
  }

  /** Where only nonces decide and the accounts whose buckets start off their next
      nonce send nothing through the Cosmos lane, the condition is that none of
      those buckets starts below the next nonce while holding it further back. */
  lemma CascadeExactApart<W(!new), S(!new)>(r: Rules<W, S>, l: Lanes, v: Ledger<W>, s: S)
    requires OnlyNonces(r) && Ready(NonceHost(r), l) && Size(l) <= 8192
    requires forall a: Account ::
      Bucket(l, a) != [] && Bucket(l, a)[0].nonce != NonceOf(v.nonces, a) ==> CosmosApart(r, l.cosmos, a)
    ensures var plain := P.Run(NonceHost(r), false, P.Start(l, v, s));
      var skip := P.Run(NonceHost(r), true, P.Start(l, v, s));
      && plain.Built? && skip.Built?
      && (plain.b.block.selected == skip.b.block.selected <==>
          forall a: Account :: NotBehindLow(Bucket(l, a), NonceOf(v.nonces, a)))
  {
    NoTrace(r);
    ReadyLanes(NonceHost(r), l);
    hide P.Run, OnlyNonces, Ready, Order, Size, Hidden, NotBehindLow, NonceOf, CosmosApart, HidesNothing, Fits,
      RefusalsLeaveNoTrace;
    NoncesFit(r, NoBooks(v, s), Order(r.params, l));
    CascadeExactFits(NonceHost(r), l, v, s);
    NoneBehindLow(r, l, NoBooks(v, s));
  }

  lemma ReadyLanes<V, S>(h: P.Host<V, S>, l: Lanes)
    requires Ready(h, l)
    ensures ValidLane(l.evm) && AllConvert(l)
  {
  }

  lemma NoneBehindLow<W(!new), S(!new)>(r: Rules<W, S>, l: Lanes, x: Books<Ledger<W>, S>)
    requires OnlyNonces(r) && x.seqs == map[] && ValidLane(l.evm) && AllConvert(l)
    requires forall a: Account ::
      Bucket(l, a) != [] && Bucket(l, a)[0].nonce != NonceOf(x.v.nonces, a) ==> CosmosApart(r, l.cosmos, a)
    ensures HidesNothing(NonceHost(r), x, Order(r.params, l)) <==>
      forall a: Account :: NotBehindLow(Bucket(l, a), NonceOf(x.v.nonces, a))
  {
    hide OnlyNonces, ValidLane, AllConvert, Order, Hidden, NotBehindLow, NonceOf, CosmosApart;
    var h, order := NonceHost(r), Order(r.params, l);
    forall a: Account
      ensures Hidden(h, x, order, a) <==> !NotBehindLow(Bucket(l, a), NonceOf(x.v.nonces, a))
    {
      HiddenIsBehindLow(r, l, x, a);
    }
    if !HidesNothing(h, x, order) {
      var a: Account :| Hidden(h, x, order, a);
      assert !NotBehindLow(Bucket(l, a), NonceOf(x.v.nonces, a));
    }
    forall a: Account | HidesNothing(h, x, order) ensures NotBehindLow(Bucket(l, a), NonceOf(x.v.nonces, a)) {
      assert !Hidden(h, x, order, a);
    }
  }

  // ---------- mempools where the skip loses a valid transaction ----------

  /** "Nonce too low": account 7, whose next nonce is 5, has nonces 4 and 5 pending
      and there is nothing else. */
  lemma LosesValidTx(p: Params, r: Rules<int, nat>)
    requires r == Rules(p, _ => false, _ => [], (_, _) => true,
                        (v: Ledger<int>, _) => (v.rest, P.Accepted), (n, _) => P.Choice(n, true, false))
    ensures var l := Lanes(map[7 := [EvmTx(7, 4, 1, 0, true), EvmTx(7, 5, 1, 0, true)]], [], false);
      var plain := P.Run(NonceHost(r), false, P.Start(l, Ledger(map[7 := 5], 0), 0));
      var skip := P.Run(NonceHost(r), true, P.Start(l, Ledger(map[7 := 5], 0), 0));
      plain.Built? && skip.Built? && plain.b.block.selected != skip.b.block.selected
  {
    hide P.Run;
    var low, good := EvmTx(7, 4, 1, 0, true), EvmTx(7, 5, 1, 0, true);
    var l := Lanes(map[7 := [low, good]], [], false);
    LowReady(r, l, low, good);
    assert good in Bucket(l, 7);
    assert !NotBehindLow(Bucket(l, 7), 5);
    CascadeExactApart(r, l, Ledger(map[7 := 5], 0), 0);
  }

  lemma LowReady<W, S>(r: Rules<W, S>, l: Lanes, x: EvmTx, y: EvmTx)
    requires l == Lanes(map[7 := [x, y]], [], false) && x.sender == 7 == y.sender && x.nonce < y.nonce
    requires x.converts && y.converts
    ensures Ready(NonceHost(r), l) && Size(l) <= 8192 && Bucket(l, 7) == [x, y]
  {
    SizeBound(l, 7, [x, y]);
  }

  lemma {:induction false} SetOfSeq<T>(xs: seq<T>)
    ensures |set x | x in xs| <= |xs|
  {
    if xs != [] {
      SetOfSeq(xs[1..]);
      assert (set x | x in xs) == {xs[0]} + (set x | x in xs[1..]);
    } else {
      assert (set x | x in xs) == {};
    }
  }

  lemma SizeBound(l: Lanes, a: Account, bucket: seq<EvmTx>)
    requires l.evm == map[a := bucket]
    ensures Size(l) <= |bucket| + |l.cosmos|
  {
    assert Pending(l.evm) == set x | x in bucket by {
      assert l.evm[a] == bucket;
    }
    SetOfSeq(bucket);
  }

  lemma OneBucket(p: Params, l: Lanes, a: Account, e: EvmTx, rest: seq<EvmTx>)
    requires l.evm == map[a := [e] + rest]
    ensures Peek(l.evm) == Some(e) && Top(l.evm) == a
    ensures ShiftLane(l.evm) == if rest == [] then map[] else map[a := rest]
  {
    assert a in l.evm;
    assert Top(l.evm) in l.evm;
    assert ([e] + rest)[1..] == rest;
  }

  /** Account 7 has several transactions in the EVM lane; the Cosmos lane pays more
      than the last and less than the others. */
  ghost predicate Sandwich(p: Params, l: Lanes, front: seq<EvmTx>, y: EvmTx) {
    && p == Params("b", None)
    && l.evm == map[7 := front + [y]] && |front| <= 2 && |l.cosmos| <= 2
    && (forall e <- front + [y] :: e.sender == 7 && e.converts)
    && (forall i, j :: 0 <= i < j < |front + [y]| ==> (front + [y])[i].nonce < (front + [y])[j].nonce)
    && (forall e <- front :: e.tip == 10) && y.tip == 1
    && (forall c <- l.cosmos :: c.fees == Some([Coin("b", 5)]) && c.gas == 1)
    && IdsDistinct(l)
  }

  lemma SandwichReady<W, S>(r: Rules<W, S>, l: Lanes, front: seq<EvmTx>, y: EvmTx)
    requires Sandwich(r.params, l, front, y)
    ensures Ready(NonceHost(r), l) && Size(l) <= 5
  {
    SizeBound(l, 7, front + [y]);
    assert ValidBucket(l.evm[7], 7);
  }

  ghost function Shown(cs: seq<CosmosTx>): seq<Tx> {
    if cs == [] then [] else [FromCosmos(cs[0])] + Shown(cs[1..])
  }

  ghost function EvmShown(es: seq<EvmTx>): seq<Tx> {
    if es == [] then [] else [FromEvm(es[0])] + EvmShown(es[1..])
  }

  lemma FiveEach(p: Params, c: CosmosTx)
    requires p == Params("b", None) && c.fees == Some([Coin("b", 5)]) && c.gas == 1
    ensures CosmosTip(p, c) == 5
  {
  }

  /** With the last transaction left, the Cosmos lane goes first. */
  lemma {:induction false} CosmosThen(p: Params, l: Lanes, y: EvmTx)
    requires p == Params("b", None) && l.evm == map[7 := [y]] && y.sender == 7 && y.tip == 1 && y.converts
    requires forall c <- l.cosmos :: c.fees == Some([Coin("b", 5)]) && c.gas == 1
    ensures Order(p, l) == Shown(l.cosmos) + [FromEvm(y)]
    decreases |l.cosmos|
  {
    hide Order, ValidLane, CosmosTip;
    OneLane(y);
    assert [y] + [] == [y];
    OneBucket(p, l, 7, y, []);
    hide Top, Peek, ShiftLane;
    OrderStep(p, l);
    if l.cosmos == [] {
      OrderStep(p, Lanes(map[], [], true));
      assert [FromEvm(y)] + [] == [FromEvm(y)] && [] + [FromEvm(y)] == [FromEvm(y)];
    } else {
      FiveEach(p, l.cosmos[0]);
      CosmosThen(p, Lanes(l.evm, l.cosmos[1..], false), y);
      Reassociate([FromCosmos(l.cosmos[0])], Shown(l.cosmos[1..]), [FromEvm(y)]);
    }
  }

  lemma OneLane(y: EvmTx)
    requires y.sender == 7
    ensures ValidLane(map[7 := [y]]) && ValidLane(map[])
  {
  }

  /** The transactions in front come out first. */
  lemma {:induction false} SandwichOrder(p: Params, l: Lanes, front: seq<EvmTx>, y: EvmTx)
    requires Sandwich(p, l, front, y)
    ensures Order(p, l) == EvmShown(front) + (Shown(l.cosmos) + [FromEvm(y)])
    decreases |front|
  {
    hide Order, CosmosTip;
    if front == [] {
      assert front + [y] == [y];
      CosmosThen(p, l, y);
    } else {
      var x, next := front[0], Lanes(map[7 := front[1..] + [y]], l.cosmos, true);
      FrontFirst(p, l, front, y);
      SandwichRest(p, l, front, y);
      hide Sandwich, ValidLane, AllConvert, Current, Advance, AfterTx;
      OrderStep(p, l);
      SandwichOrder(p, next, front[1..], y);
      Reassociate([FromEvm(x)], EvmShown(front[1..]), Shown(l.cosmos) + [FromEvm(y)]);
    }
  }

  lemma FrontFirst(p: Params, l: Lanes, front: seq<EvmTx>, y: EvmTx)
    requires Sandwich(p, l, front, y) && front != []
    ensures ValidLane(l.evm) && AllConvert(l) && Current(p, l) == Some(FromEvm(front[0]))
    ensures Advance(AfterTx(p, l)) == Lanes(map[7 := front[1..] + [y]], l.cosmos, true)
  {
    var x, rest := front[0], front[1..] + [y];
    assert front + [y] == [x] + rest && x in front && x in front + [y];
    assert ValidBucket(l.evm[7], 7);
    OneBucket(p, l, 7, x, rest);
    if l.cosmos != [] { FiveEach(p, l.cosmos[0]); }
    hide Top, Peek, ShiftLane, CosmosTip;
  }

  lemma SandwichRest(p: Params, l: Lanes, front: seq<EvmTx>, y: EvmTx)
    requires Sandwich(p, l, front, y) && front != []
    ensures Sandwich(p, Lanes(map[7 := front[1..] + [y]], l.cosmos, true), front[1..], y)
  {
    var all, rest := front + [y], front[1..] + [y];
    assert all[1..] == rest;
    forall e | e in rest ensures e in all {
    }
  }

  /** If the bucket is popped at a point from which on its last transaction would get
      its turn, the selections differ. */
  lemma SandwichLoses<V(!new), S(!new)>(h: P.Host<V, S>, l: Lanes, v: V, s: S)
    requires RefusalsLeaveNoTrace(h) && Ready(h, l) && Size(l) <= 5 && forall s, t :: h.select(s, t).added
    requires Hidden(h, NoBooks(v, s), Order(h.params, l), 7)
    ensures var plain := P.Run(h, false, P.Start(l, v, s)); var skip := P.Run(h, true, P.Start(l, v, s));
      plain.Built? && skip.Built? && plain.b.block.selected != skip.b.block.selected
  {
    hide P.Run, RefusalsLeaveNoTrace, Ready, Order, Size, Hidden, Fits;
    AddsFit(h, NoBooks(v, s), Order(h.params, l));
    CascadeExactFits(h, l, v, s);
  }

  lemma {:induction false} AddsFit<V, S(!new)>(h: P.Host<V, S>, x: Books<V, S>, ts: seq<Tx>)
    requires forall s, t :: h.select(s, t).added
    ensures Fits(h, x, ts)
    decreases ts
  {
    if ts != [] {
      AddsFit(h, AfterVisit(h, x, ts[0]), ts[1..]);
    }
  }

  /** A visit of a transaction that only account 7 signs, with the next nonce. */
  lemma SingleVisit<W(!new), S(!new)>(r: Rules<W, S>, x: Books<Ledger<W>, S>, t: Tx, n: uint64)
    requires Synced(x) && Sequences(r, t) == [P.SignerSeq(7, n)] && NonceOf(x.v.nonces, 7) == n
    requires r.extra(x.v, t).1.Accepted? && r.select(x.s, t).added && !r.select(x.s, t).stop
    ensures var h := NonceHost(r); var y := AfterVisit(h, x, t);
      InTurn(h, x, t) && !Full(h, x, t) && Synced(y) && NonceOf(y.v.nonces, 7) == Following(n)
  {
    assert Sequences(r, t)[0].signer == 7;
    assert Verify(r, x.v, t).1.Accepted?;
    TurnIsVerdict(r, x, t);
    AfterSynced(r, x, t);
    VisitSynced(r, x, t, 7);
    hide AfterVisit, Following, NonceOf, Synced;
  }

  /** Cosmos transactions of account 7 in sequence, then its EVM one: all in turn. */
  lemma {:induction false} FillsTheGap<W(!new), S(!new)>(
    r: Rules<W, S>, x: Books<Ledger<W>, S>, cs: seq<CosmosTx>, y: EvmTx, n: uint64)
    requires Synced(x) && NonceOf(x.v.nonces, 7) == n && y.sender == 7 && y.nonce == n + |cs|
    requires forall i :: 0 <= i < |cs| ==> Sequences(r, FromCosmos(cs[i])) == [P.SignerSeq(7, n + i)]
    requires forall v, t: Tx :: t.FromCosmos? || t == FromEvm(y) ==> r.extra(v, t).1.Accepted?
    requires forall s, t :: r.select(s, t).added && !r.select(s, t).stop
    ensures GetsTurn(NonceHost(r), x, Shown(cs) + [FromEvm(y)], 7)
    decreases |cs|
  {
    hide Full, InTurn, AfterVisit, GetsTurn, NonceOf, Sequences, Synced;
    var h := NonceHost(r);
    if cs == [] {
      EvmSequences(r, y);
      SingleVisit(r, x, FromEvm(y), n);
      VisitFirst(h, x, FromEvm(y), [], 7);
      assert [FromEvm(y)] + [] == [FromEvm(y)] && [] + [FromEvm(y)] == [FromEvm(y)];
    } else {
      var t, rest := FromCosmos(cs[0]), cs[1..];
      SingleVisit(r, x, t, n);
      forall i | 0 <= i < |rest| ensures Sequences(r, FromCosmos(rest[i])) == [P.SignerSeq(7, n + 1 + i)] {
        assert rest[i] == cs[i + 1];
      }
      FillsTheGap(r, AfterVisit(h, x, t), rest, y, n + 1);
      VisitFirst(h, x, t, Shown(rest) + [FromEvm(y)], 7);
      Reassociate([t], Shown(rest), [FromEvm(y)]);
    }
  }

  /** The first transaction that pops the bucket, behind others that do not and are
      not in turn either. */
  lemma {:induction false} PoppedAt<V, S>(h: P.Host<V, S>, x: Books<V, S>, front: seq<EvmTx>, rest: seq<Tx>)
    requires front != [] && forall e <- front :: e.sender == 7
    requires forall i :: 0 <= i < |front| - 1 ==> !Pops(h, x, FromEvm(front[i])) && !InTurn(h, x, FromEvm(front[i]))
    requires Pops(h, x, FromEvm(front[|front| - 1]))
    ensures PopPoint(h, x, EvmShown(front) + rest, 7) == Some(Later(x, rest))
    decreases |front|
  {
    hide Pops, InTurn, PopPoint, AfterVisit, Full;
    var t := FromEvm(front[0]);
    FullInTurn(h, x, t);
    PopFirst(h, x, t, EvmShown(front[1..]) + rest, 7);
    Reassociate([t], EvmShown(front[1..]), rest);
    if |front| == 1 {
      assert front[1..] == [] && [] + rest == rest;
    } else {
      PoppedAt(h, x, front[1..], rest);
    }
  }

  /** The mempools below: the last transaction in front pops the bucket, and the
      Cosmos lane fills the gap before the rest of it. */
  lemma GapLoses<W(!new), S(!new)>(
    r: Rules<W, S>, l: Lanes, v: Ledger<W>, s: S, front: seq<EvmTx>, y: EvmTx, n: uint64)
    requires Sandwich(r.params, l, front, y) && front != [] && NonceOf(v.nonces, 7) == n && y.nonce == n + |l.cosmos|
    requires forall i :: 0 <= i < |front| - 1 ==>
      var t := FromEvm(front[i]);
      !Pops(NonceHost(r), NoBooks(v, s), t) && !InTurn(NonceHost(r), NoBooks(v, s), t)
    requires Pops(NonceHost(r), NoBooks(v, s), FromEvm(front[|front| - 1]))
    requires forall i :: 0 <= i < |l.cosmos| ==> Sequences(r, FromCosmos(l.cosmos[i])) == [P.SignerSeq(7, n + i)]
    requires forall v, t: Tx :: t.FromCosmos? || t == FromEvm(y) ==> r.extra(v, t).1.Accepted?
    requires forall s, t :: r.select(s, t).added && !r.select(s, t).stop
    ensures var plain := P.Run(NonceHost(r), false, P.Start(l, v, s));
      var skip := P.Run(NonceHost(r), true, P.Start(l, v, s));
      plain.Built? && skip.Built? && plain.b.block.selected != skip.b.block.selected
  {
    var h, x := NonceHost(r), NoBooks(v, s);
    SandwichMembers(r.params, l, front, y);
    FillsTheGap(r, x, l.cosmos, y, n);
    NoTrace(r);
    SandwichReady(r, l, front, y);
    SandwichOrder(r.params, l, front, y);
    hide P.Run, Pops, InTurn, PopPoint, GetsTurn, Order, Ready, Size, Sandwich, RefusalsLeaveNoTrace, Sequences;
    PoppedAt(h, x, front, Shown(l.cosmos) + [FromEvm(y)]);
    SandwichLoses(h, l, v, s);
  }

  lemma SandwichMembers(p: Params, l: Lanes, front: seq<EvmTx>, y: EvmTx)
    requires Sandwich(p, l, front, y)
    ensures y.sender == 7 && forall e <- front :: e.sender == 7
  {
    assert y in front + [y];
    forall e | e in front ensures e.sender == 7 {
      assert e in front + [y];
    }
  }

  /** "Nonce too high": account 7, whose next nonce is 5, has nonces 5, 6 and 7 pending
      in the EVM lane, of which 5 cannot be paid for at the moment, and sequences 5
      and 6 in the Cosmos lane. */
  lemma LosesAcrossLanes(r: Rules<int, nat>)
    requires r == Rules(Params("b", None), _ => false,
                        (c: CosmosTx) => [P.SignerSeq(7, if c.id == 1 then 5 else 6)], (_, _) => true,
                        (v: Ledger<int>, t: Tx) =>
                          (v.rest, if t.FromEvm? && t.evm.nonce == 5 then P.Refused(false) else P.Accepted),
                        (n, _) => P.Choice(n, true, false))
    ensures var l := Lanes(
                map[7 := [EvmTx(7, 5, 10, 0, true), EvmTx(7, 6, 10, 0, true), EvmTx(7, 7, 1, 0, true)]],
                [CosmosTx(1, Some([Coin("b", 5)]), 1), CosmosTx(2, Some([Coin("b", 5)]), 1)], false);
      var plain := P.Run(NonceHost(r), false, P.Start(l, Ledger(map[7 := 5], 0), 0));
      var skip := P.Run(NonceHost(r), true, P.Start(l, Ledger(map[7 := 5], 0), 0));
      plain.Built? && skip.Built? && plain.b.block.selected != skip.b.block.selected
  {
    hide P.Run;
    var poor, x, y := EvmTx(7, 5, 10, 0, true), EvmTx(7, 6, 10, 0, true), EvmTx(7, 7, 1, 0, true);
    var c1, c2 := CosmosTx(1, Some([Coin("b", 5)]), 1), CosmosTx(2, Some([Coin("b", 5)]), 1);
    var l := Lanes(map[7 := [poor, x, y]], [c1, c2], false);
    assert [poor, x] + [y] == [poor, x, y];
    EvmSequences(r, poor);
    EvmSequences(r, x);
    GapLoses(r, l, Ledger(map[7 := 5], 0), 0, [poor, x], y, 5);
  }

  /** "Intrinsic gas": account 7, whose next nonce is 5, has nonces 5 and 6 pending in
      the EVM lane, the first with too little gas, and sequence 5 in the Cosmos lane. */
  lemma LosesByGas(r: Rules<int, nat>)
    requires r == Rules(Params("b", None), _ => false, _ => [P.SignerSeq(7, 5)], (_, _) => true,
                        (v: Ledger<int>, t: Tx) =>
                          (v.rest, if t.FromEvm? && t.evm.nonce == 5 then P.Refused(true) else P.Accepted),
                        (n, _) => P.Choice(n, true, false))
    ensures var l := Lanes(map[7 := [EvmTx(7, 5, 10, 0, true), EvmTx(7, 6, 1, 0, true)]],
                           [CosmosTx(1, Some([Coin("b", 5)]), 1)], false);
      var plain := P.Run(NonceHost(r), false, P.Start(l, Ledger(map[7 := 5], 0), 0));
      var skip := P.Run(NonceHost(r), true, P.Start(l, Ledger(map[7 := 5], 0), 0));
      plain.Built? && skip.Built? && plain.b.block.selected != skip.b.block.selected
  {
    hide P.Run;
    var x, y := EvmTx(7, 5, 10, 0, true), EvmTx(7, 6, 1, 0, true);
    var l := Lanes(map[7 := [x, y]], [CosmosTx(1, Some([Coin("b", 5)]), 1)], false);
    assert [x] + [y] == [x, y];
    EvmSequences(r, x);
    GapLoses(r, l, Ledger(map[7 := 5], 0), 0, [x], y, 5);
  }

  // ---------- the proviso on the selector ----------

  lemma {:induction false} DecliningTakesNone<V, S>(h: P.Host<V, S>, cascade: bool, b: P.Builder<V, S>)
    requires forall s, t :: !h.select(s, t).added
    ensures P.Run(h, cascade, b).Built? ==> P.Run(h, cascade, b).b.block.selected == b.block.selected
    decreases P.MAX_ITERATIONS - b.iterations
  {
    hide Current, AfterTx, Advance, PopAccount, P.CheckSigners, P.Record;
    P.PassCounts(h, cascade, b);
    if P.Pass(h, cascade, b).Continue? {
      DecliningTakesNone(h, cascade, P.Pass(h, cascade, b).b);
    }
  }

  /** The proviso of the exact condition cannot be dropped: with a selector that has
      no room at all, a bucket hides a turn and the selections agree all the same. */
  lemma HiddenWithoutRoom(p: Params, r: Rules<int, nat>)
    requires r == Rules(p, _ => false, _ => [], (_, _) => true,
                        (v: Ledger<int>, _) => (v.rest, P.Accepted), (n, _) => P.Choice(n, false, false))
    ensures var l := Lanes(map[7 := [EvmTx(7, 4, 1, 0, true), EvmTx(7, 5, 1, 0, true)]], [], false);
      var v := Ledger(map[7 := 5], 0);
      var plain := P.Run(NonceHost(r), false, P.Start(l, v, 0));
      var skip := P.Run(NonceHost(r), true, P.Start(l, v, 0));
      && plain.Built? && skip.Built? && plain.b.block.selected == skip.b.block.selected
      && Hidden(NonceHost(r), NoBooks(v, 0), Order(p, l), 7)
  {
    hide P.Run;
    var h := NonceHost(r);
    var low, good := EvmTx(7, 4, 1, 0, true), EvmTx(7, 5, 1, 0, true);
    var l := Lanes(map[7 := [low, good]], [], false);
    var b: Books<Ledger<int>, nat> := NoBooks(Ledger(map[7 := 5], 0), 0);
    FirstAsked(r, b, low);
    FirstAsked(r, b, good);
    assert Pops(h, b, FromEvm(low)) && InTurn(h, b, FromEvm(good));
    LowReady(r, l, low, good);
    TwoOrder(p, l, low, good);
    hide Pops, InTurn, GetsTurn, PopPoint, Order, Ready, Size;
    VisitFirst(h, b, FromEvm(good), [], 7);
    PopFirst(h, b, FromEvm(low), [FromEvm(good)], 7);
    assert [FromEvm(good)] + [] == [FromEvm(good)] && [FromEvm(low)] + [FromEvm(good)] == [FromEvm(low), FromEvm(good)];
    NeverFails(h, false, P.Start(l, b.v, 0));
    NeverFails(h, true, P.Start(l, b.v, 0));
    DecliningTakesNone(h, false, P.Start(l, b.v, 0));
    DecliningTakesNone(h, true, P.Start(l, b.v, 0));
  }

  lemma FirstAsked<W, S>(r: Rules<W, S>, x: Books<Ledger<W>, S>, e: EvmTx)
    requires x.seqs == map[]
    ensures Asked(NonceHost(r), x, FromEvm(e))
    ensures Matches(x.v.nonces, Sequences(r, FromEvm(e))) <==> e.nonce == NonceOf(x.v.nonces, e.sender)
  {
    hide P.CheckSigners, NonceOf;
    EvmSequences(r, e);
    CheckExact(x.seqs, SignersOf(r, FromEvm(e)), map[]);
    assert Sequences(r, FromEvm(e))[0] == P.SignerSeq(e.sender, e.nonce);
  }

  lemma TwoOrder(p: Params, l: Lanes, x: EvmTx, y: EvmTx)
    requires l == Lanes(map[7 := [x, y]], [], false) && x.sender == 7 == y.sender && x.nonce < y.nonce
    requires x.converts && y.converts
    ensures Order(p, l) == [FromEvm(x), FromEvm(y)]
  {
    hide Order;
    assert ValidBucket([x, y], 7) && ValidBucket([y], 7);
    assert [x] + [y] == [x, y] && [y] + [] == [y];
    var l1 := Lanes(map[7 := [y]], [], true);
    var l2 := Lanes(map[], [], true);
    OneBucket(p, l, 7, x, [y]);
    OneBucket(p, l1, 7, y, []);
    hide Top, Peek, ShiftLane;
    assert Current(p, l) == Some(FromEvm(x)) && Advance(AfterTx(p, l)) == l1;
    assert Current(p, l1) == Some(FromEvm(y)) && Advance(AfterTx(p, l1)) == l2;
    OrderStep(p, l);
    OrderStep(p, l1);
    OrderStep(p, l2);
  }
}
