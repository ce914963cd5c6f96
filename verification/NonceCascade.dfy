/** The cascade skip with a verifier that checks nonces: what a caller can look
    for in the mempool to know that dropping buckets is harmless, whatever else
    the verifier checks and the selector takes. */
module NonceCascade {
  import opened Common
  import opened MempoolIterator
  import opened IteratorRuns
  import opened BuilderLaws
  import opened CascadeSkip
  import P = Proposal

  /** Next expected nonce of each account. */
  type Nonces = map<Account, uint64>

  function NonceOf(v: Nonces, a: Account): uint64 { if a in v then v[a] else 0 }

  function Following(x: uint64): uint64 { (x + 1) % TWO_64 }

  /** The verifier's state: the nonces, and anything else accepted transactions
      change, such as balances. */
  datatype Ledger<W> = Ledger(nonces: Nonces, rest: W)

  /** Everything but the nonce rule: how a wrong nonce is reported (another check
      may come first), further checks, which may refuse with any error, as for
      intrinsic gas or funds, and the selector. */
  datatype Rules<!W, !S> = Rules(
    params: Params,
    unordered: CosmosTx -> bool,
    signers: CosmosTx -> seq<P.SignerSeq>,
    permanent: (Ledger<W>, Tx) -> bool,
    extra: (Ledger<W>, Tx) -> (W, P.Verdict),
    select: (S, Tx) -> P.Choice<S>)

  function SignersOf<W, S>(r: Rules<W, S>, t: Tx): seq<P.SignerSeq> {
    match t
    case FromEvm(e) => [P.SignerSeq(e.sender, e.nonce)]
    case FromCosmos(c) => r.signers(c)
  }

  predicate Unordered<W, S>(r: Rules<W, S>, t: Tx) { t.FromCosmos? && r.unordered(t.cosmos) }

  /** The sequences a transaction is checked against; none if it is unordered. */
  function Sequences<W, S>(r: Rules<W, S>, t: Tx): seq<P.SignerSeq> {
    if Unordered(r, t) then [] else SignersOf(r, t)
  }

  predicate Matches(v: Nonces, sd: seq<P.SignerSeq>) {
    forall x <- sd :: x.sequence == NonceOf(v, x.signer)
  }

  function Bump(v: Nonces, sd: seq<P.SignerSeq>): Nonces
    decreases sd
  {
    if sd == [] then v else Bump(v[sd[0].signer := Following(sd[0].sequence)], sd[1..])
  }

  /** A transaction must carry the next nonce of each signer. An accepted one moves
      its signers' nonces on and may change the rest; a refused one changes nothing. */
  function Verify<W, S>(r: Rules<W, S>, v: Ledger<W>, t: Tx): (Ledger<W>, P.Verdict) {
    if !Matches(v.nonces, Sequences(r, t)) then (v, P.Refused(r.permanent(v, t)))
    else
      var (w, verdict) := r.extra(v, t);
      if verdict.Refused? then (v, verdict) else (Ledger(Bump(v.nonces, Sequences(r, t)), w), verdict)
  }

  function NonceHost<W, S>(r: Rules<W, S>): P.Host<Ledger<W>, S> {
    P.Host(r.params, (t: Tx) => Unordered(r, t), (t: Tx) => Some(SignersOf(r, t)),
           (v: Ledger<W>, t: Tx) => Verify(r, v, t), r.select)
  }

  // ---------- effects on nonces ----------

  predicate Mentions(sd: seq<P.SignerSeq>, a: Account) { exists x <- sd :: x.signer == a }

  lemma {:induction false} BumpAt(v: Nonces, sd: seq<P.SignerSeq>, a: Account, n: uint64)
    requires forall x <- sd :: x.signer == a ==> x.sequence == n
    ensures NonceOf(Bump(v, sd), a) == if Mentions(sd, a) then Following(n) else NonceOf(v, a)
    decreases sd
  {
    hide Following;
    if sd != [] {
      BumpAt(v[sd[0].signer := Following(sd[0].sequence)], sd[1..], a, n);
      assert sd == [sd[0]] + sd[1..];
      if sd[0].signer == a { assert sd[0] in sd; }
    }
  }

  /** Verification moves the nonces of an accepted transaction's signers on by one
      and no others. */
  lemma VerifyMoves<W, S>(r: Rules<W, S>, v: Ledger<W>, t: Tx, a: Account)
    ensures var (v', verdict) := Verify(r, v, t); var n := NonceOf(v.nonces, a);
      NonceOf(v'.nonces, a) == if verdict.Accepted? && Mentions(Sequences(r, t), a) then Following(n) else n
  {
    hide Sequences, Bump, Mentions, NonceOf, Following;
    if Matches(v.nonces, Sequences(r, t)) {
      BumpAt(v.nonces, Sequences(r, t), a, NonceOf(v.nonces, a));
    }
  }

  lemma VerifyEvm<W, S>(r: Rules<W, S>, v: Ledger<W>, e: EvmTx)
    ensures Sequences(r, FromEvm(e)) == [P.SignerSeq(e.sender, e.nonce)]
    ensures Verify(r, v, FromEvm(e)).1.Accepted? ==> e.nonce == NonceOf(v.nonces, e.sender)
    ensures Mentions(Sequences(r, FromEvm(e)), e.sender)
    ensures forall a :: Mentions(Sequences(r, FromEvm(e)), a) ==> a == e.sender
  {
    hide NonceOf, Bump;
    assert Sequences(r, FromEvm(e))[0] == P.SignerSeq(e.sender, e.nonce);
  }

  // ---------- what a caller can check before the call ----------

  /** No pending Cosmos transaction carries for account a the sequence before that
      of one of these transactions. */
  ghost predicate NoLead<W, S>(r: Rules<W, S>, cosmos: seq<CosmosTx>, a: Account, behind: seq<EvmTx>) {
    forall c <- cosmos :: forall x <- Sequences(r, FromCosmos(c)) :: x.signer == a ==>
      forall e <- behind :: e.nonce != Following(x.sequence)
  }

  function Behind(bucket: seq<EvmTx>): seq<EvmTx> { if bucket == [] then [] else bucket[1..] }

  /** The bucket does not hold a transaction with the account's next nonce behind
      one with a lower nonce. */
  ghost predicate NotBehindLow(bucket: seq<EvmTx>, next: uint64) {
    bucket != [] && bucket[0].nonce < next ==> forall e <- bucket :: e.nonce != next
  }

  /** Popping account a's bucket cannot cost anything: the transactions behind its
      head have no way to get their turn, neither by the account's nonce as it is
      nor by a Cosmos transaction of the account. */
  ghost predicate Harmless<W, S>(r: Rules<W, S>, l: Lanes, v: Nonces, a: Account) {
    NoLead(r, l.cosmos, a, Behind(Bucket(l, a))) && NotBehindLow(Bucket(l, a), NonceOf(v, a))
  }

  // ---------- dead remainders ----------

  /** After verifying pending transactions, none of them a's own EVM ones, a's next
      nonce is what it was or follows a sequence the Cosmos lane carries for a. */
  ghost predicate Reachable<W, S>(r: Rules<W, S>, l: Lanes, a: Account, from: uint64, n: uint64) {
    || n == from
    || exists c <- l.cosmos :: exists x <- Sequences(r, FromCosmos(c)) ::
         x.signer == a && n == Following(x.sequence)
  }

  lemma VerifyReaches<W, S>(r: Rules<W, S>, l: Lanes, v: Ledger<W>, t: Tx, a: Account)
    requires Bucket(l, a) == [] && IsPending(l, t)
    ensures Reachable(r, l, a, NonceOf(v.nonces, a), NonceOf(Verify(r, v, t).0.nonces, a))
  {
    hide NonceOf, Bump, Following;
    VerifyMoves(r, v, t, a);
    var sd := Sequences(r, t);
    if Verify(r, v, t).1.Accepted? && Mentions(sd, a) {
      if t.FromEvm? { VerifyEvm(r, v, t.evm); }
      var x :| x in sd && x.signer == a;
      assert Matches(v.nonces, sd);
      assert x.sequence == NonceOf(v.nonces, a);
      assert t.cosmos in l.cosmos && x in Sequences(r, FromCosmos(t.cosmos));
    }
  }

  lemma {:induction false} ReplayReaches<W, S>(r: Rules<W, S>, l: Lanes, v: Ledger<W>, ts: seq<Tx>, a: Account)
    requires Bucket(l, a) == [] && AllPending(l, ts)
    ensures Reachable(r, l, a, NonceOf(v.nonces, a), NonceOf(Replay(NonceHost(r), v, ts).nonces, a))
    decreases ts
  {
    hide Verify, NonceOf, Following, Sequences, IsPending;
    if ts != [] {
      assert IsPending(l, ts[0]);
      VerifyReaches(r, l, v, ts[0], a);
      ReplayReaches(r, l, Verify(r, v, ts[0]).0, ts[1..], a);
    }
  }

  /** The rest of a popped bucket is dead when none of it carries a nonce the
      account can get to, and only if each that carries the next one would be
      refused anyway. */
  lemma DeadRest<W, S>(r: Rules<W, S>, l: Lanes, v: Ledger<W>, rest: seq<EvmTx>, a: Account)
    requires Bucket(l, a) == [] && forall e <- rest :: e.sender == a
    ensures NoLead(r, l.cosmos, a, rest) && (forall e <- rest :: e.nonce != NonceOf(v.nonces, a)) ==>
              BucketDead(NonceHost(r), l, v, rest)
    ensures BucketDead(NonceHost(r), l, v, rest) ==>
              forall e <- rest :: e.nonce == NonceOf(v.nonces, a) ==> r.extra(v, FromEvm(e)).1.Refused?
  {
    hide NonceOf, Following, Bump;
    var h := NonceHost(r);
    if NoLead(r, l.cosmos, a, rest) && forall e <- rest :: e.nonce != NonceOf(v.nonces, a) {
      forall e, ts | e in rest && AllPending(l, ts) ensures h.verify(Replay(h, v, ts), FromEvm(e)).1.Refused? {
        ReplayReaches(r, l, v, ts, a);
        VerifyEvm(r, Replay(h, v, ts), e);
      }
    }
    if BucketDead(h, l, v, rest) {
      forall e | e in rest && e.nonce == NonceOf(v.nonces, a) ensures r.extra(v, FromEvm(e)).1.Refused? {
        assert AllPending(l, []);
        assert h.verify(Replay(h, v, []), FromEvm(e)).1.Refused?;
      }
    }
  }

  // ---------- when every pop is harmless ----------

  lemma BucketSorted(l: Lanes, a: Account)
    requires ValidLane(l.evm)
    ensures forall i, j :: 0 <= i < j < |Bucket(l, a)| ==> Bucket(l, a)[i].nonce < Bucket(l, a)[j].nonce
    ensures forall e <- Bucket(l, a) :: e.sender == a
  {
    if a in l.evm { assert ValidBucket(l.evm[a], a); }
  }

  /** The head of a sorted bucket gone, by shifting or with the bucket. */
  lemma WithoutHead(bucket: seq<EvmTx>, next: uint64)
    requires bucket != [] && forall i, j :: 0 <= i < j < |bucket| ==> bucket[i].nonce < bucket[j].nonce
    ensures NotBehindLow(bucket, next) ==> NotBehindLow(bucket[1..], next) && forall e <- bucket[1..] :: e.nonce != next
    ensures NotBehindLow(bucket[1..], Following(bucket[0].nonce))
  {
  }

  lemma NoLeadFewer<W, S>(
    r: Rules<W, S>, cosmos: seq<CosmosTx>, fewer: seq<CosmosTx>, a: Account, behind: seq<EvmTx>, less: seq<EvmTx>)
    requires NoLead(r, cosmos, a, behind)
    requires (forall c <- fewer :: c in cosmos) && forall e <- less :: e in behind
    ensures NoLead(r, fewer, a, less)
  {
    hide Sequences, Following;
  }

  /** One account after one shift or pop. */
  lemma HarmlessStep<W, S>(r: Rules<W, S>, l: Lanes, v: Ledger<W>, t: Tx, a: Account)
    requires ValidLane(l.evm) && Harmless(r, l, v.nonces, a) && Current(r.params, l) == Some(t)
    ensures Harmless(r, Advance(AfterTx(r.params, l)), v.nonces, a)
    ensures Harmless(r, Advance(AfterTx(r.params, l)), Verify(r, v, t).0.nonces, a)
    ensures Harmless(r, PopAccount(AfterTx(r.params, l)), v.nonces, a)
  {
    hide Current, AfterTx, Advance, PopAccount, ValidLane, Bump, NonceOf, Following, Verify, Sequences,
      NoLead, NotBehindLow;
    CurrentIsHead(r.params, l);
    NextEffect(r.params, l, a);
    PopEffect(r.params, l, a);
    BucketSorted(l, a);
    var q := Bucket(l, a);
    if q != [] { WithoutHead(q, NonceOf(v.nonces, a)); }
    NotBehindLowEmpty(NonceOf(v.nonces, a));
    var next, popped := Advance(AfterTx(r.params, l)), PopAccount(AfterTx(r.params, l));
    NoLeadFewer(r, l.cosmos, next.cosmos, a, Behind(q), Behind(Bucket(next, a)));
    NoLeadFewer(r, l.cosmos, popped.cosmos, a, Behind(q), Behind(Bucket(popped, a)));
    VerifyMoves(r, v, t, a);
    match t
    case FromEvm(e) => VerifyEvm(r, v, e);
    case FromCosmos(c) => CosmosLeads(r, l, v, c, a);
  }

  lemma NotBehindLowEmpty(next: uint64)
    ensures NotBehindLow([], next)
  {
  }

  /** An accepted Cosmos transaction of a does not put a's bucket behind. */
  lemma CosmosLeads<W, S>(r: Rules<W, S>, l: Lanes, v: Ledger<W>, c: CosmosTx, a: Account)
    requires Harmless(r, l, v.nonces, a) && c in l.cosmos
    ensures NotBehindLow(Bucket(l, a), NonceOf(Verify(r, v, FromCosmos(c)).0.nonces, a))
  {
    hide Bump, NonceOf, Following, Sequences;
    VerifyMoves(r, v, FromCosmos(c), a);
    var sd := Sequences(r, FromCosmos(c));
    if Verify(r, v, FromCosmos(c)).1.Accepted? && Mentions(sd, a) {
      var x :| x in sd && x.signer == a;
      assert Matches(v.nonces, sd);
      assert x.sequence == NonceOf(v.nonces, a);
      var q := Bucket(l, a);
      forall e | e in q && q[0].nonce < Following(x.sequence) ensures e.nonce != Following(x.sequence) {
        if e != q[0] { assert e in Behind(q); }
      }
    }
  }

  lemma PopIsSafe<W, S>(r: Rules<W, S>, l: Lanes, v: Ledger<W>, e: EvmTx)
    requires ValidLane(l.evm) && Harmless(r, l, v.nonces, e.sender)
    requires Current(r.params, l) == Some(FromEvm(e))
    ensures |Bucket(l, e.sender)| >= 1
    ensures BucketDead(NonceHost(r), PopAccount(AfterTx(r.params, l)), v, Bucket(l, e.sender)[1..])
  {
    hide Current, AfterTx, PopAccount, ValidLane, BucketDead, NonceOf, Following, Sequences;
    var a := e.sender;
    CurrentIsHead(r.params, l);
    PopEffect(r.params, l, a);
    BucketSorted(l, a);
    WithoutHead(Bucket(l, a), NonceOf(v.nonces, a));
    DeadRest(r, PopAccount(AfterTx(r.params, l)), v, Bucket(l, a)[1..], a);
  }

  lemma ConsiderNonces<W, S>(r: Rules<W, S>, fromEvm: bool, k: P.Block<Ledger<W>, S>, t: Tx)
    ensures var (k', move) := P.Consider(NonceHost(r), true, fromEvm, k, t);
      && (k'.v == k.v || k'.v == Verify(r, k.v, t).0)
      && (move == P.Pop ==> fromEvm && k'.v == k.v)
      && (move == P.Next || move == P.Pop || move == P.Stop)
  {
  }

  ghost predicate AllHarmless<W, S>(r: Rules<W, S>, l: Lanes, v: Nonces) {
    forall a :: Harmless(r, l, v, a)
  }

  lemma {:induction false} HarmlessPopsSafe<W(!new), S(!new)>(r: Rules<W, S>, b: P.Builder<Ledger<W>, S>)
    requires AllHarmless(r, b.lanes, b.block.v.nonces) && Ready(NonceHost(r), b.lanes) && Fresh(b)
    requires b.iterations <= P.MAX_ITERATIONS
    ensures SafePops(NonceHost(r), b)
    decreases P.MAX_ITERATIONS - b.iterations
  {
    hide Current, AfterTx, Advance, PopAccount, ValidLane, AllConvert, P.Consider, Verify, BucketDead, Fresh, Harmless,
      IdsDistinct, SignersKnown;
    var h := NonceHost(r);
    P.PassCounts(h, true, b);
    var c := Current(r.params, b.lanes);
    if c.Some? && b.iterations < P.MAX_ITERATIONS {
      var l := AfterTx(r.params, b.lanes);
      var (k, move) := P.Consider(h, true, l.fromEvm, b.block, c.value);
      NeverStuck(h, true, b);
      CurrentIsHead(r.params, b.lanes);
      ConsiderNonces(r, l.fromEvm, b.block, c.value);
      forall a
        ensures Harmless(r, Advance(l), k.v.nonces, a)
        ensures move == P.Pop ==> Harmless(r, PopAccount(l), k.v.nonces, a)
      {
        HarmlessStep(r, b.lanes, b.block.v, c.value, a);
      }
      ReadyAfter(h, b.lanes);
      FreshAfter(h, b, k, b.iterations + 1);
      if move == P.Pop { PopIsSafe(r, b.lanes, b.block.v, c.value.evm); }
      if P.Pass(h, true, b).Continue? {
        HarmlessPopsSafe(r, P.Pass(h, true, b).b);
      }
    }
  }

  /** With a nonce-checking verifier and no bucket that hides a transaction whose
      turn could come, the cascade skip selects what the plain handler selects,
      whatever the other checks, their errors and state, and the selector do. */
  lemma NonceCascadeExact<W(!new), S(!new)>(r: Rules<W, S>, l: Lanes, v: Ledger<W>, s: S)
    requires Ready(NonceHost(r), l) && AllHarmless(r, l, v.nonces)
    ensures var plain := P.Run(NonceHost(r), false, P.Start(l, v, s));
      var skip := P.Run(NonceHost(r), true, P.Start(l, v, s));
      && plain.Built? && skip.Built?
      && plain.b.block.selected <= skip.b.block.selected
      && (Size(l) <= 8192 ==> plain.b.block.selected == skip.b.block.selected)
  {
    hide P.Run, SafePops, Ready, Size, AllHarmless;
    NoTrace(r);
    HarmlessPopsSafe(r, P.Start(l, v, s));
    CascadeOnlySavesTime(NonceHost(r), l, v, s);
  }

  lemma NoTrace<W(!new), S(!new)>(r: Rules<W, S>)
    ensures RefusalsLeaveNoTrace(NonceHost(r))
  {
  }
}
