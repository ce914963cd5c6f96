/** The bank send restriction that keeps custom tokens on user wallets and on the
    x/stoc module account, over whole runs of sends. */
module Custody {
  import opened Common

  type Addr = nat
  type Denom = string

  /** The account stored under an address, if any. */
  datatype Account = NoAccount | Wallet | Interchain | Vesting | ModuleAccount

  /** Fixed by the chain: native denoms, registered custom tokens, the x/stoc module. */
  datatype Chain = Chain(native: Denom -> bool, hasToken: Denom -> bool, stocModule: Addr)

  datatype Bank = Bank(balances: map<(Addr, Denom), nat>, accounts: map<Addr, Account>)

  function Balance(b: Bank, a: Addr, d: Denom): nat { if (a, d) in b.balances then b.balances[(a, d)] else 0 }

  function AccountOf(b: Bank, a: Addr): Account { if a in b.accounts then b.accounts[a] else NoAccount }

  predicate IsCustom(c: Chain, d: Denom) { !c.native(d) && c.hasToken(d) }

  /** The fast path's loop: the first custom token of the amount. */
  function CustomDenom(c: Chain, amt: seq<Coin>): Option<Denom> {
    if amt == [] then None
    else if c.native(amt[0].denom) then CustomDenom(c, amt[1..])
    else if c.hasToken(amt[0].denom) then Some(amt[0].denom)
    else CustomDenom(c, amt[1..])
  }

  /** rejectIfNonWallet: no account yet and plain accounts pass. */
  predicate RejectIfNonWallet(b: Bank, a: Addr) {
    match AccountOf(b, a)
    case NoAccount => false
    case Interchain => true
    case Vesting => true
    case ModuleAccount => true
    case Wallet => false
  }

  /** The restriction: whether a send is let through. */
  function Restriction(c: Chain, b: Bank, from: Addr, to: Addr, amt: seq<Coin>): bool {
    if CustomDenom(c, amt) == None then true
    else if from != c.stocModule && RejectIfNonWallet(b, from) then false
    else if to != c.stocModule && RejectIfNonWallet(b, to) then false
    else true
  }

  function Move(b: Bank, from: Addr, to: Addr, coin: Coin): Bank
    requires coin.amount <= Balance(b, from, coin.denom)
  {
    var taken := b.(balances := b.balances[(from, coin.denom) := Balance(b, from, coin.denom) - coin.amount]);
    taken.(balances := taken.balances[(to, coin.denom) := Balance(taken, to, coin.denom) + coin.amount])
  }

  function MoveAll(b: Bank, from: Addr, to: Addr, amt: seq<Coin>): Option<Bank>
    decreases amt
  {
    if amt == [] then Some(b)
    else if amt[0].amount > Balance(b, from, amt[0].denom) then None
    else MoveAll(Move(b, from, to, amt[0]), from, to, amt[1..])
  }

  /** A send: refused by the restriction or for lack of funds, or carried out. */
  function Send(c: Chain, b: Bank, from: Addr, to: Addr, amt: seq<Coin>): Bank {
    if !Restriction(c, b, from, to, amt) then b
    else match MoveAll(b, from, to, amt)
      case None => b
      case Some(b') => b'
  }

  // ---------- custody ----------

  predicate Custodian(c: Chain, b: Bank, a: Addr) {
    a == c.stocModule || AccountOf(b, a) in {NoAccount, Wallet}
  }

  ghost predicate InCustody(c: Chain, b: Bank) {
    forall a, d :: IsCustom(c, d) && Balance(b, a, d) > 0 ==> Custodian(c, b, a)
  }

  lemma {:induction false} CustomDenomExact(c: Chain, amt: seq<Coin>)
    ensures CustomDenom(c, amt).Some? <==>
      exists coin :: coin in amt && !c.native(coin.denom) && c.hasToken(coin.denom)
  {
    if amt != [] {
      CustomDenomExact(c, amt[1..]);
      assert amt == [amt[0]] + amt[1..];
    }
  }

  /** A send is let through exactly when it carries no custom token at all or both
      ends may hold one; looking at the first custom token suffices. */
  lemma RestrictionExact(c: Chain, b: Bank, from: Addr, to: Addr, amt: seq<Coin>)
    ensures Restriction(c, b, from, to, amt) <==>
      || (forall coin <- amt :: c.native(coin.denom) || !c.hasToken(coin.denom))
      || (&& (from == c.stocModule || AccountOf(b, from) == NoAccount || AccountOf(b, from) == Wallet)
          && (to == c.stocModule || AccountOf(b, to) == NoAccount || AccountOf(b, to) == Wallet))
    ensures Restriction(c, b, from, to, amt) <==>
      (forall coin <- amt :: !IsCustom(c, coin.denom)) || (Custodian(c, b, from) && Custodian(c, b, to))
  {
    CustomDenomExact(c, amt);
  }

  lemma MoveInCustody(c: Chain, b: Bank, from: Addr, to: Addr, coin: Coin)
    requires InCustody(c, b) && coin.amount <= Balance(b, from, coin.denom)
    requires IsCustom(c, coin.denom) ==> Custodian(c, b, to)
    ensures InCustody(c, Move(b, from, to, coin))
  {
    var b' := Move(b, from, to, coin);
    forall a, d | IsCustom(c, d) && Balance(b', a, d) > 0 ensures Custodian(c, b', a) {
      if a != to || d != coin.denom { assert Balance(b, a, d) > 0; }
    }
  }

  lemma {:induction false} MovesStayInCustody(c: Chain, b: Bank, from: Addr, to: Addr, amt: seq<Coin>)
    requires InCustody(c, b)
    requires (exists coin :: coin in amt && IsCustom(c, coin.denom)) ==> Custodian(c, b, to)
    ensures MoveAll(b, from, to, amt).Some? ==> InCustody(c, MoveAll(b, from, to, amt).value)
    ensures MoveAll(b, from, to, amt).Some? ==> MoveAll(b, from, to, amt).value.accounts == b.accounts
    decreases amt
  {
    if amt != [] && amt[0].amount <= Balance(b, from, amt[0].denom) {
      assert amt[0] in amt && forall coin <- amt[1..] :: coin in amt;
      MoveInCustody(c, b, from, to, amt[0]);
      MovesStayInCustody(c, Move(b, from, to, amt[0]), from, to, amt[1..]);
    }
  }

  // ---------- totals ----------

  function Total(b: Bank, holders: seq<Addr>, d: Denom): nat {
    if holders == [] then 0 else Balance(b, holders[0], d) + Total(b, holders[1..], d)
  }

  lemma {:induction false} TotalAfterSet(b: Bank, holders: seq<Addr>, d: Denom, a: Addr, e: Denom, v: nat)
    requires Distinct(holders)
    ensures var b' := b.(balances := b.balances[(a, e) := v]);
      Total(b', holders, d) == Total(b, holders, d) + if a in holders && d == e then v as int - Balance(b, a, d) else 0
  {
    if holders != [] {
      TotalAfterSet(b, holders[1..], d, a, e, v);
      assert holders[0] !in holders[1..];
    }
  }

  lemma {:induction false} MovesConserve(b: Bank, from: Addr, to: Addr, amt: seq<Coin>, holders: seq<Addr>, d: Denom)
    requires Distinct(holders) && from in holders && to in holders
    ensures MoveAll(b, from, to, amt).Some? ==>
      Total(MoveAll(b, from, to, amt).value, holders, d) == Total(b, holders, d)
    decreases amt
  {
    hide Total, Distinct;
    if amt != [] && amt[0].amount <= Balance(b, from, amt[0].denom) {
      var e := amt[0].denom;
      var taken := b.(balances := b.balances[(from, e) := Balance(b, from, e) - amt[0].amount]);
      TotalAfterSet(b, holders, d, from, e, Balance(b, from, e) - amt[0].amount);
      TotalAfterSet(taken, holders, d, to, e, Balance(taken, to, e) + amt[0].amount);
      MovesConserve(Move(b, from, to, amt[0]), from, to, amt[1..], holders, d);
    }
  }

  // ---------- what a send does ----------

  function AmountOf(amt: seq<Coin>, d: Denom): nat {
    if amt == [] then 0 else (if amt[0].denom == d then amt[0].amount else 0) + AmountOf(amt[1..], d)
  }

  /** Moving coins between two accounts takes each denom's amount from the one and
      gives it to the other, and succeeds exactly if the funds suffice. */
  lemma {:induction false} MovesExact(b: Bank, from: Addr, to: Addr, amt: seq<Coin>)
    requires from != to
    ensures MoveAll(b, from, to, amt).Some? <==> forall d :: AmountOf(amt, d) <= Balance(b, from, d)
    ensures MoveAll(b, from, to, amt).Some? ==>
      forall a, d :: Balance(MoveAll(b, from, to, amt).value, a, d) ==
        Balance(b, a, d) + (if a == to then AmountOf(amt, d) else 0) - (if a == from then AmountOf(amt, d) else 0)
    decreases amt
  {
    if amt == [] {
      assert forall d :: AmountOf(amt, d) == 0;
    } else {
      var e, n := amt[0].denom, amt[0].amount;
      assert AmountOf(amt, e) >= n;
      if n <= Balance(b, from, e) {
        var next := Move(b, from, to, amt[0]);
        MovesExact(next, from, to, amt[1..]);
        forall a, d
          ensures Balance(next, a, d) ==
            Balance(b, a, d) + (if a == to && d == e then n else 0) - (if a == from && d == e then n else 0)
        {
        }
        assert forall d :: AmountOf(amt, d) == (if d == e then n else 0) + AmountOf(amt[1..], d);
      }
    }
  }

  /** A send between two accounts is carried out, in full and with no other effect on
      balances, exactly if it is let through and the funds suffice; else nothing moves. */
  lemma SendExact(c: Chain, b: Bank, from: Addr, to: Addr, amt: seq<Coin>, a: Addr, d: Denom)
    requires from != to
    ensures var b' := Send(c, b, from, to, amt);
      var allowed := (forall coin <- amt :: !IsCustom(c, coin.denom)) || (Custodian(c, b, from) && Custodian(c, b, to));
      if allowed && forall e :: AmountOf(amt, e) <= Balance(b, from, e) then
        Balance(b', a, d) ==
          Balance(b, a, d) + (if a == to then AmountOf(amt, d) else 0) - (if a == from then AmountOf(amt, d) else 0)
      else b' == b
  {
    hide MoveAll, Restriction, IsCustom, Custodian, AmountOf, Balance;
    RestrictionExact(c, b, from, to, amt);
    MovesExact(b, from, to, amt);
  }

  // ---------- runs ----------

  /** A send attempt, or an account being stored under an address. */
  datatype Event = SendCoins(from: Addr, to: Addr, amt: seq<Coin>) | SetAccount(addr: Addr, account: Account)

  function Next(c: Chain, b: Bank, e: Event): Bank {
    match e
    case SendCoins(from, to, amt) => Send(c, b, from, to, amt)
    case SetAccount(addr, account) => b.(accounts := b.accounts[addr := account])
  }

  function Run(c: Chain, b: Bank, run: seq<Event>): Bank
    decreases run
  {
    if run == [] then b else Run(c, Next(c, b, run[0]), run[1..])
  }

  /** No account other than x/stoc gets a kind that may not hold custom tokens while
      it holds some. A plain account stored for a first-time recipient is fine. */
  ghost predicate KindOk(c: Chain, b: Bank, e: Event) {
    e.SetAccount? && e.addr != c.stocModule && e.account !in {NoAccount, Wallet} ==>
      forall d :: IsCustom(c, d) ==> Balance(b, e.addr, d) == 0
  }

  ghost predicate KindsOk(c: Chain, b: Bank, run: seq<Event>)
    decreases run
  {
    run == [] || (KindOk(c, b, run[0]) && KindsOk(c, Next(c, b, run[0]), run[1..]))
  }

  /** Every state along the run is in custody. */
  ghost predicate AlwaysInCustody(c: Chain, b: Bank, run: seq<Event>)
    decreases run
  {
    InCustody(c, b) && (run == [] || AlwaysInCustody(c, Next(c, b, run[0]), run[1..]))
  }

  /** One event from a state in custody: the restriction never fails, and an account
      may change its kind exactly as stated. */
  lemma NextInCustody(c: Chain, b: Bank, e: Event)
    requires InCustody(c, b)
    ensures InCustody(c, Next(c, b, e)) <==> KindOk(c, b, e)
  {
    hide MoveAll, Restriction;
    var b' := Next(c, b, e);
    match e
    case SendCoins(from, to, amt) =>
      RestrictionExact(c, b, from, to, amt);
      if Restriction(c, b, from, to, amt) { MovesStayInCustody(c, b, from, to, amt); }
    case SetAccount(addr, account) =>
      if KindOk(c, b, e) {
        forall a, d | IsCustom(c, d) && Balance(b', a, d) > 0 ensures Custodian(c, b', a) {
          assert Balance(b, a, d) > 0;
        }
      } else {
        var d :| IsCustom(c, d) && Balance(b, addr, d) != 0;
        assert Balance(b', addr, d) > 0 && !Custodian(c, b', addr);
      }
  }

  /** If custom tokens start on wallets and the x/stoc module, then along every run of
      send attempts, admitted or not, they stay there, if and only if no account
      holding some is given another kind. */
  lemma {:induction false} CustodyIff(c: Chain, b: Bank, run: seq<Event>)
    requires InCustody(c, b)
    ensures AlwaysInCustody(c, b, run) <==> KindsOk(c, b, run)
    decreases run
  {
    hide KindOk, InCustody, Next;
    if run != [] {
      NextInCustody(c, b, run[0]);
      if KindOk(c, b, run[0]) {
        CustodyIff(c, Next(c, b, run[0]), run[1..]);
      } else {
        StartsInCustody(c, Next(c, b, run[0]), run[1..]);
      }
    }
  }

  lemma StartsInCustody(c: Chain, b: Bank, run: seq<Event>)
    ensures AlwaysInCustody(c, b, run) ==> InCustody(c, b)
  {
  }

  lemma {:induction false} EndsInCustody(c: Chain, b: Bank, run: seq<Event>)
    requires AlwaysInCustody(c, b, run)
    ensures InCustody(c, Run(c, b, run))
    decreases run
  {
    if run != [] {
      EndsInCustody(c, Next(c, b, run[0]), run[1..]);
    }
  }

  /** In particular at the end of the run. */
  lemma CustodyKept(c: Chain, b: Bank, run: seq<Event>)
    requires InCustody(c, b) && KindsOk(c, b, run)
    ensures InCustody(c, Run(c, b, run))
  {
    CustodyIff(c, b, run);
    EndsInCustody(c, b, run);
  }

  /** Sends only move coins: the total of every denom over the holders is unchanged. */
  lemma {:induction false} TotalsConserved(c: Chain, b: Bank, run: seq<Event>, holders: seq<Addr>, d: Denom)
    requires Distinct(holders)
    requires forall e <- run :: e.SendCoins? ==> e.from in holders && e.to in holders
    ensures Total(Run(c, b, run), holders, d) == Total(b, holders, d)
    decreases run
  {
    hide MoveAll, Restriction, Distinct, Total;
    if run != [] {
      assert run[0] in run && forall e <- run[1..] :: e in run;
      match run[0] {
        case SendCoins(from, to, amt) => MovesConserve(b, from, to, amt, holders, d);
        case SetAccount(addr, account) => TotalIgnoresAccounts(b, holders, d, b.accounts[addr := account]);
      }
      TotalsConserved(c, Next(c, b, run[0]), run[1..], holders, d);
    }
  }

  lemma {:induction false} TotalIgnoresAccounts(b: Bank, holders: seq<Addr>, d: Denom, accounts: map<Addr, Account>)
    ensures Total(b.(accounts := accounts), holders, d) == Total(b, holders, d)
  {
    if holders != [] {
      TotalIgnoresAccounts(b, holders[1..], d, accounts);
    }
  }
}
