/** The escrow-address cache of the bank send restriction, under concurrent
    callers: every atomic step of the closure, with its read-write lock, and the
    steps of all callers interleaved at will. */
module EscrowCache {
  import opened Common

  type Addr = nat
  type Caller = nat

  datatype Channel = Channel(port: string, id: nat)

  const TRANSFER_PORT := "transfer"

  /** The chain as callers see it: the channels that existed before block h, those
      opened within it (also by transactions that are reverted later, or only
      checked), and the escrow address of a channel. */
  datatype Chain = Chain(channelsBefore: nat -> set<Channel>, within: nat -> set<Channel>, escrow: Channel -> Addr)

  /** Channels are never removed. */
  ghost predicate Growing(c: Chain) {
    forall h, k :: h <= k ==> c.channelsBefore(h) <= c.channelsBefore(k)
  }

  function EscrowsOf(c: Chain, channels: set<Channel>): set<Addr> {
    set ch | ch in channels && ch.port == TRANSFER_PORT :: c.escrow(ch)
  }

  /** Escrow addresses of the transfer channels opened before block h. */
  ghost function Protected(c: Chain, h: nat): set<Addr> {
    set ch | ch in c.channelsBefore(h) && ch.port == "transfer" :: c.escrow(ch)
  }

  /** Where a caller is inside the restriction. */
  datatype Pc =
    | Idle
    | WantRead | Reading | ReadDone     // first critical section: is a rebuild needed?
    | WantWrite | Locked | Building | Built | Swapped | Unlocking   // rebuild under the write lock
    | WantLookup | LookingUp | LookedUp // second read section: the lookup
    | Returned

  /** A call's arguments and local variables. `custom` says whether the amount
      holds a custom token. */
  datatype Call = Call(
    pc: Pc, height: nat, from: Addr, to: Addr, custom: bool, needRebuild: bool, newCache: set<Addr>, accepted: bool)

  const NO_CALL := Call(Idle, 0, 0, 0, false, false, {}, false)

  datatype State = State(
    escrowAddrs: Option<set<Addr>>, cacheHeight: nat,
    writer: Option<Caller>, readers: set<Caller>, calls: map<Caller, Call>)

  function Initial(): State { State(None, 0, None, {}, map[]) }

  function CallOf(s: State, t: Caller): Call { if t in s.calls then s.calls[t] else NO_CALL }

  /** What the environment supplies to a step: the arguments of a new call, and
      what GetAllChannels returns beyond the channels that existed before the
      caller's block: some of those opened within it. */
  datatype Input = Input(height: nat, from: Addr, to: Addr, custom: bool, seen: set<Channel>)

  function Seen(c: Chain, h: nat, seen: set<Channel>): set<Channel> {
    c.channelsBefore(h) + seen * c.within(h)
  }

  function With(s: State, t: Caller, k: Call): State { s.(calls := s.calls[t := k]) }

  predicate Stale(s: State, h: nat) { s.escrowAddrs.None? || h as int - s.cacheHeight >= 1 }

  /** One step of caller t; a step that has to wait for the lock changes nothing. */
  function Step(c: Chain, s: State, t: Caller, i: Input): State {
    var k := CallOf(s, t);
    match k.pc
    case Idle =>
      var call := Call(Idle, i.height, i.from, i.to, i.custom, false, {}, false);
      With(s, t, if i.custom then call.(pc := WantRead) else call.(pc := Returned, accepted := true))
    case WantRead => if s.writer.Some? then s else With(s, t, k.(pc := Reading)).(readers := s.readers + {t})
    case Reading => With(s, t, k.(pc := ReadDone, needRebuild := Stale(s, k.height)))
    case ReadDone => With(s, t, k.(pc := if k.needRebuild then WantWrite else WantLookup)).(readers := s.readers - {t})
    case WantWrite => if s.writer.Some? || s.readers != {} then s else With(s, t, k.(pc := Locked)).(writer := Some(t))
    case Locked => With(s, t, k.(pc := if Stale(s, k.height) then Building else Unlocking))
    case Building => With(s, t, k.(pc := Built, newCache := EscrowsOf(c, Seen(c, k.height, i.seen))))
    case Built => With(s, t, k.(pc := Swapped)).(escrowAddrs := Some(k.newCache))
    case Swapped => With(s, t, k.(pc := Unlocking)).(cacheHeight := k.height)
    case Unlocking => With(s, t, k.(pc := WantLookup)).(writer := None)
    case WantLookup => if s.writer.Some? then s else With(s, t, k.(pc := LookingUp)).(readers := s.readers + {t})
    case LookingUp =>
      var blocked := s.escrowAddrs.Some? && (k.to in s.escrowAddrs.value || k.from in s.escrowAddrs.value);
      With(s, t, k.(pc := LookedUp, accepted := !blocked))
    case LookedUp => With(s, t, k.(pc := Returned)).(readers := s.readers - {t})
    case Returned => With(s, t, NO_CALL)
  }

  /** A schedule: which caller moves next, with what input. */
  function Exec(c: Chain, s: State, schedule: seq<(Caller, Input)>): State
    decreases schedule
  {
    if schedule == [] then s else Exec(c, Step(c, s, schedule[0].0, schedule[0].1), schedule[1..])
  }

  // ---------- the invariant ----------

  predicate Writes(pc: Pc) { pc in {Locked, Building, Built, Swapped, Unlocking} }
  predicate Reads(pc: Pc) { pc in {Reading, ReadDone, LookingUp, LookedUp} }
  predicate PastRebuild(k: Call) {
    k.pc in {Unlocking, WantLookup, LookingUp, LookedUp} || (k.pc == ReadDone && !k.needRebuild)
  }

  /** The lock excludes: a caller in the write section is the writer, alone. */
  ghost predicate Excludes(s: State) {
    (forall t: Caller :: Placed(s, t)) && (s.writer.Some? ==> s.readers == {})
  }

  ghost predicate Placed(s: State, t: Caller) {
    && (Writes(CallOf(s, t).pc) <==> s.writer == Some(t))
    && (Reads(CallOf(s, t).pc) <==> t in s.readers)
  }

  /** The cached addresses cover the height they are marked with, except between
      the writer's two assignments, when they cover the writer's own height. */
  ghost predicate Covers(c: Chain, s: State) {
    s.escrowAddrs.Some? ==>
      && Protected(c, s.cacheHeight) <= s.escrowAddrs.value
      && (s.writer.Some? && CallOf(s, s.writer.value).pc == Swapped ==>
            Protected(c, CallOf(s, s.writer.value).height) <= s.escrowAddrs.value)
  }

  /** What each call knows at its point in the code. */
  ghost predicate CallGood(c: Chain, s: State, t: Caller) {
    var k := CallOf(s, t);
    && (k.pc in {Building, Built} ==> Stale(s, k.height))
    && (k.pc == Built ==> Protected(c, k.height) <= k.newCache)
    && (k.pc == Swapped ==> s.escrowAddrs.Some? && s.cacheHeight <= k.height)
    && (PastRebuild(k) ==> s.escrowAddrs.Some? && k.height <= s.cacheHeight)
    && (k.pc in {LookedUp, Returned} && k.custom && k.accepted ==>
          k.from !in Protected(c, k.height) && k.to !in Protected(c, k.height))
  }

  ghost predicate Inv(c: Chain, s: State) {
    Excludes(s) && Covers(c, s) && (s.escrowAddrs.None? ==> s.cacheHeight == 0) && forall t: Caller :: CallGood(c, s, t)
  }

  lemma InitialInv(c: Chain)
    ensures Inv(c, Initial())
  {
  }

  lemma ProtectedGrows(c: Chain, h: nat, k: nat, seen: set<Channel>)
    requires Growing(c) && h <= k
    ensures Protected(c, h) <= Protected(c, k)
    ensures Protected(c, h) <= EscrowsOf(c, Seen(c, h, seen))
  {
  }

  lemma StepExcludes(c: Chain, s: State, t: Caller, i: Input)
    requires Excludes(s)
    ensures Excludes(Step(c, s, t, i))
  {
    hide Placed, Step;
    StepLock(c, s, t, i);
    forall u: Caller ensures Placed(Step(c, s, t, i), u) {
      assert Placed(s, t) && Placed(s, u);
      StepPlaces(c, s, t, i, u);
    }
  }

  lemma StepLock(c: Chain, s: State, t: Caller, i: Input)
    requires Placed(s, t) && (s.writer.Some? ==> s.readers == {})
    ensures var s' := Step(c, s, t, i); s'.writer.Some? ==> s'.readers == {}
  {
  }

  lemma StepPlaces(c: Chain, s: State, t: Caller, i: Input, u: Caller)
    requires Placed(s, t) && Placed(s, u) && (s.writer.Some? ==> s.readers == {})
    ensures Placed(Step(c, s, t, i), u)
  {
    hide Step, Placed;
    if u == t { PlacesOwn(c, s, t, i); } else { PlacesOther(c, s, t, i, u); }
  }

  lemma PlacesOwn(c: Chain, s: State, t: Caller, i: Input)
    requires Placed(s, t) && (s.writer.Some? ==> s.readers == {})
    ensures Placed(Step(c, s, t, i), t)
  {
    hide Step, Placed;
    var pc := CallOf(s, t).pc;
    if Writes(pc) || pc == WantWrite {
      PlacesWriter(c, s, t, i);
    } else if Reads(pc) {
      PlacesReader(c, s, t, i);
    } else {
      PlacesWaiting(c, s, t, i);
    }
  }

  lemma PlacesWriter(c: Chain, s: State, t: Caller, i: Input)
    requires Placed(s, t) && (Writes(CallOf(s, t).pc) || CallOf(s, t).pc == WantWrite)
    ensures Placed(Step(c, s, t, i), t)
  {
    hide EscrowsOf, Stale;
  }

  lemma PlacesReader(c: Chain, s: State, t: Caller, i: Input)
    requires Placed(s, t) && Reads(CallOf(s, t).pc)
    ensures Placed(Step(c, s, t, i), t)
  {
    hide EscrowsOf, Stale;
  }

  lemma PlacesWaiting(c: Chain, s: State, t: Caller, i: Input)
    requires Placed(s, t) && !Writes(CallOf(s, t).pc) && !Reads(CallOf(s, t).pc) && CallOf(s, t).pc != WantWrite
    ensures Placed(Step(c, s, t, i), t)
  {
    hide EscrowsOf, Stale;
  }

  lemma PlacesOther(c: Chain, s: State, t: Caller, i: Input, u: Caller)
    requires Placed(s, t) && Placed(s, u) && u != t
    ensures Placed(Step(c, s, t, i), u)
  {
    hide EscrowsOf, Stale;
  }

  lemma StepCovers(c: Chain, s: State, t: Caller, i: Input)
    requires Growing(c) && Inv(c, s)
    ensures Covers(c, Step(c, s, t, i))
  {
    hide Protected;
    var k := CallOf(s, t);
    assert CallGood(c, s, t) && Placed(s, t);
    ProtectedGrows(c, k.height, k.height, i.seen);
    if k.pc in {Built, Swapped} && s.cacheHeight <= k.height {
      ProtectedGrows(c, s.cacheHeight, k.height, {});
    }
    if s.writer.Some? { assert CallGood(c, s, s.writer.value) && Placed(s, s.writer.value); }
  }

  /** The cache height never decreases, and once built the cache stays. */
  lemma StepHeight(c: Chain, s: State, t: Caller, i: Input)
    requires Inv(c, s)
    ensures s.cacheHeight <= Step(c, s, t, i).cacheHeight
    ensures s.escrowAddrs.Some? ==> Step(c, s, t, i).escrowAddrs.Some?
  {
    assert CallGood(c, s, t);
  }

  lemma StepOthers(c: Chain, s: State, t: Caller, i: Input, u: Caller)
    requires Inv(c, s) && u != t
    ensures CallGood(c, Step(c, s, t, i), u)
  {
    hide Protected, Covers;
    assert CallGood(c, s, u) && CallGood(c, s, t);
    StepHeight(c, s, t, i);
    assert Placed(s, t) && Placed(s, u);
  }

  lemma StepOwn(c: Chain, s: State, t: Caller, i: Input)
    requires Growing(c) && Inv(c, s)
    ensures CallGood(c, Step(c, s, t, i), t)
  {
    var k := CallOf(s, t);
    assert CallGood(c, s, t) && Placed(s, t);
    if k.pc == LookingUp {
      OwnLookup(c, s, t, i);
    } else if Writes(k.pc) {
      OwnWrite(c, s, t, i);
    } else {
      OwnOther(c, s, t, i);
    }
  }

  lemma OwnLookup(c: Chain, s: State, t: Caller, i: Input)
    requires Growing(c) && Covers(c, s) && CallGood(c, s, t) && CallOf(s, t).pc == LookingUp
    ensures CallGood(c, Step(c, s, t, i), t)
  {
    hide Protected, EscrowsOf;
    ProtectedGrows(c, CallOf(s, t).height, s.cacheHeight, {});
  }

  lemma OwnWrite(c: Chain, s: State, t: Caller, i: Input)
    requires Growing(c) && CallGood(c, s, t) && Writes(CallOf(s, t).pc)
    requires s.escrowAddrs.None? ==> s.cacheHeight == 0
    ensures CallGood(c, Step(c, s, t, i), t)
  {
    hide Protected, EscrowsOf, Growing;
    var k := CallOf(s, t);
    ProtectedGrows(c, k.height, k.height, i.seen);
  }

  lemma OwnOther(c: Chain, s: State, t: Caller, i: Input)
    requires CallGood(c, s, t) && CallOf(s, t).pc != LookingUp && !Writes(CallOf(s, t).pc)
    ensures CallGood(c, Step(c, s, t, i), t)
  {
    hide Protected, EscrowsOf;
  }

  lemma StepKeepsInv(c: Chain, s: State, t: Caller, i: Input)
    requires Growing(c) && Inv(c, s)
    ensures Inv(c, Step(c, s, t, i))
  {
    hide Excludes, Covers, CallGood;
    StepExcludes(c, s, t, i);
    StepCovers(c, s, t, i);
    StepNil(c, s, t, i);
    forall u ensures CallGood(c, Step(c, s, t, i), u) {
      if u == t { StepOwn(c, s, t, i); } else { StepOthers(c, s, t, i, u); }
    }
  }

  lemma StepNil(c: Chain, s: State, t: Caller, i: Input)
    requires Inv(c, s)
    ensures var s' := Step(c, s, t, i); s'.escrowAddrs.None? ==> s'.cacheHeight == 0
  {
    assert CallGood(c, s, t);
  }

  // ---------- every interleaving ----------

  lemma {:induction false} ExecKeepsInv(c: Chain, s: State, schedule: seq<(Caller, Input)>)
    requires Growing(c) && Inv(c, s)
    ensures Inv(c, Exec(c, s, schedule)) && s.cacheHeight <= Exec(c, s, schedule).cacheHeight
    decreases schedule
  {
    hide Inv, Step;
    if schedule != [] {
      var (t, i) := schedule[0];
      StepKeepsInv(c, s, t, i);
      StepHeight(c, s, t, i);
      ExecKeepsInv(c, Step(c, s, t, i), schedule[1..]);
    }
  }

  // ---------- what a call was made with ----------

  /** The input with which caller t last entered the restriction, if it is inside. */
  function Entered(c: Chain, s: State, schedule: seq<(Caller, Input)>, t: Caller, last: Option<Input>): Option<Input>
    decreases schedule
  {
    if schedule == [] then last
    else
      var (u, i) := schedule[0];
      Entered(c, Step(c, s, u, i), schedule[1..], t, if u == t && CallOf(s, t).pc == Idle then Some(i) else last)
  }

  /** A call under way carries the height, the ends and the kind of amount it was made with. */
  predicate Carries(k: Call, i: Option<Input>) {
    k.pc != Idle ==>
      && i.Some? && k.height == i.value.height
      && k.from == i.value.from && k.to == i.value.to && k.custom == i.value.custom
  }

  lemma StepCarries(c: Chain, s: State, t: Caller, i: Input, u: Caller, last: Option<Input>)
    requires Carries(CallOf(s, t), last)
    ensures Carries(CallOf(Step(c, s, u, i), t), if u == t && CallOf(s, t).pc == Idle then Some(i) else last)
  {
    hide EscrowsOf, Stale;
    if u != t { OthersKept(c, s, u, i, t); }
  }

  lemma {:induction false} ExecCarries(
    c: Chain, s: State, schedule: seq<(Caller, Input)>, t: Caller, last: Option<Input>)
    requires Carries(CallOf(s, t), last)
    ensures Carries(CallOf(Exec(c, s, schedule), t), Entered(c, s, schedule, t, last))
    decreases schedule
  {
    hide Step, Carries;
    if schedule != [] {
      var (u, i) := schedule[0];
      StepCarries(c, s, t, i, u, last);
      ExecCarries(c, Step(c, s, u, i), schedule[1..], t,
                  if u == t && CallOf(s, t).pc == Idle then Some(i) else last);
    }
  }

  /** In every interleaving a call under way carries what it was made with. */
  lemma CallCarriesInput(c: Chain, schedule: seq<(Caller, Input)>, t: Caller)
    ensures var k := CallOf(Exec(c, Initial(), schedule), t); var i := Entered(c, Initial(), schedule, t, None);
      k.pc != Idle ==>
        i.Some? && k.height == i.value.height && k.from == i.value.from && k.to == i.value.to &&
        k.custom == i.value.custom
  {
    ExecCarries(c, Initial(), schedule, t, None);
  }

  // ---------- the laws ----------

  /** In every interleaving: a lookup by a call made in block h uses a cache built at
      height h or later that covers all transfer channels opened before block h. */
  lemma LookupUsesFreshCache(c: Chain, schedule: seq<(Caller, Input)>, t: Caller)
    requires Growing(c)
    requires CallOf(Exec(c, Initial(), schedule), t).pc == LookingUp
    ensures var s := Exec(c, Initial(), schedule); var i := Entered(c, Initial(), schedule, t, None);
      && i.Some? && s.escrowAddrs.Some? && i.value.height <= s.cacheHeight
      && Protected(c, i.value.height) <= s.escrowAddrs.value
  {
    CallCarriesInput(c, schedule, t);
    InitialInv(c);
    ExecKeepsInv(c, Initial(), schedule);
    var s := Exec(c, Initial(), schedule);
    assert CallGood(c, s, t);
    ProtectedGrows(c, CallOf(s, t).height, s.cacheHeight, {});
  }

  /** Hence no custom-token send to or from the escrow of a transfer channel opened
      before the sender's block is accepted, whoever else runs at the same time. */
  lemma NoEscrowSendAccepted(c: Chain, schedule: seq<(Caller, Input)>, t: Caller)
    requires Growing(c)
    ensures var k := CallOf(Exec(c, Initial(), schedule), t); var i := Entered(c, Initial(), schedule, t, None);
      k.pc == Returned && k.accepted ==>
        i.Some? && (i.value.custom ==>
          i.value.from !in Protected(c, i.value.height) && i.value.to !in Protected(c, i.value.height))
  {
    CallCarriesInput(c, schedule, t);
    InitialInv(c);
    ExecKeepsInv(c, Initial(), schedule);
    assert CallGood(c, Exec(c, Initial(), schedule), t);
  }

  // ---------- only escrows are refused ----------

  /** The height the cached addresses were read at. */
  function ReadAt(s: State): nat {
    if s.writer.Some? && CallOf(s, s.writer.value).pc == Swapped then CallOf(s, s.writer.value).height
    else s.cacheHeight
  }

  /** Escrow addresses of the transfer channels some caller can see in block h. */
  ghost function Visible(c: Chain, h: nat): set<Addr> {
    set ch | ch in c.channelsBefore(h) + c.within(h) && ch.port == "transfer" :: c.escrow(ch)
  }

  ghost predicate VisibleBy(c: Chain, a: Addr, height: nat) {
    exists h: nat :: h <= height && a in Visible(c, h)
  }

  /** Every cached address is the escrow of a transfer channel visible then. */
  ghost predicate CacheGenuine(c: Chain, s: State) {
    s.escrowAddrs.Some? ==> s.escrowAddrs.value <= Visible(c, ReadAt(s))
  }

  ghost predicate CallGenuine(c: Chain, s: State, t: Caller) {
    var k := CallOf(s, t);
    && (k.pc == Built ==> k.newCache <= Visible(c, k.height))
    && (k.pc !in {Idle, Returned} ==> k.custom)
    && (k.pc in {LookedUp, Returned} && !k.accepted ==>
          k.custom && (VisibleBy(c, k.from, s.cacheHeight) || VisibleBy(c, k.to, s.cacheHeight)))
  }

  ghost predicate Genuine(c: Chain, s: State) {
    CacheGenuine(c, s) && forall t: Caller :: CallGenuine(c, s, t)
  }

  lemma SeenGenuine(c: Chain, h: nat, seen: set<Channel>)
    ensures EscrowsOf(c, Seen(c, h, seen)) <= Visible(c, h)
  {
  }

  lemma StepCacheGenuine(c: Chain, s: State, t: Caller, i: Input)
    requires Inv(c, s) && Genuine(c, s)
    ensures CacheGenuine(c, Step(c, s, t, i))
  {
    hide Protected, Visible, EscrowsOf, Covers;
    assert CallGood(c, s, t) && CallGenuine(c, s, t) && Placed(s, t);
  }

  lemma StepOwnGenuine(c: Chain, s: State, t: Caller, i: Input)
    requires Inv(c, s) && Genuine(c, s)
    ensures CallGenuine(c, Step(c, s, t, i), t)
  {
    hide Protected, Visible, EscrowsOf, Covers;
    assert CallGood(c, s, t) && CallGenuine(c, s, t) && Placed(s, t);
    SeenGenuine(c, CallOf(s, t).height, i.seen);
  }

  lemma StepOtherGenuine(c: Chain, s: State, t: Caller, i: Input, u: Caller)
    requires Inv(c, s) && Genuine(c, s) && u != t
    ensures CallGenuine(c, Step(c, s, t, i), u)
  {
    hide Visible, EscrowsOf, Step;
    StepHeight(c, s, t, i);
    OthersKept(c, s, t, i, u);
    assert CallGenuine(c, s, u);
  }

  lemma OthersKept(c: Chain, s: State, t: Caller, i: Input, u: Caller)
    requires u != t
    ensures CallOf(Step(c, s, t, i), u) == CallOf(s, u)
  {
    hide EscrowsOf, Stale;
  }

  lemma {:induction false} ExecKeepsGenuine(c: Chain, s: State, schedule: seq<(Caller, Input)>)
    requires Growing(c) && Inv(c, s) && Genuine(c, s)
    ensures Genuine(c, Exec(c, s, schedule))
    decreases schedule
  {
    hide Inv, Step, CacheGenuine, CallGenuine;
    if schedule != [] {
      var (t, i) := schedule[0];
      StepKeepsInv(c, s, t, i);
      StepCacheGenuine(c, s, t, i);
      forall u: Caller ensures CallGenuine(c, Step(c, s, t, i), u) {
        if u == t { StepOwnGenuine(c, s, t, i); } else { StepOtherGenuine(c, s, t, i, u); }
      }
      ExecKeepsGenuine(c, Step(c, s, t, i), schedule[1..]);
    }
  }

  /** The other direction: in every interleaving a refused send carries a custom
      token and one of its ends is the escrow of a transfer channel that was
      visible, committed or not, in a block the cache has reached. */
  lemma OnlyEscrowSendRefused(c: Chain, schedule: seq<(Caller, Input)>, t: Caller)
    requires Growing(c)
    ensures var s := Exec(c, Initial(), schedule); var k := CallOf(s, t);
      var i := Entered(c, Initial(), schedule, t, None);
      k.pc == Returned && !k.accepted ==>
        && i.Some? && i.value.custom
        && (VisibleBy(c, i.value.from, s.cacheHeight) || VisibleBy(c, i.value.to, s.cacheHeight))
  {
    CallCarriesInput(c, schedule, t);
    InitialInv(c);
    ExecKeepsGenuine(c, Initial(), schedule);
    assert CallGenuine(c, Exec(c, Initial(), schedule), t);
  }

  lemma Moves(c: Chain, s: State, u: Caller, i: Input)
    requires Placed(s, u) && (s.writer.None? || s.writer == Some(u))
    requires CallOf(s, u).pc != Idle && (CallOf(s, u).pc == WantWrite ==> s.readers == {})
    ensures CallOf(Step(c, s, u, i), u).pc != CallOf(s, u).pc
  {
    hide EscrowsOf, Stale;
  }

  /** The two lock acquisitions never deadlock: in every reachable state with a
      call under way some caller's next step goes through. */
  lemma SomeoneMoves(c: Chain, schedule: seq<(Caller, Input)>, t: Caller, i: Input) returns (u: Caller)
    requires Growing(c) && CallOf(Exec(c, Initial(), schedule), t).pc != Idle
    ensures var s := Exec(c, Initial(), schedule);
      Step(c, s, u, i) != s
  {
    InitialInv(c);
    ExecKeepsInv(c, Initial(), schedule);
    hide Exec, Step, Covers, CallGood;
    var s := Exec(c, Initial(), schedule);
    u := t;
    if s.writer.Some? {
      u := s.writer.value;
    } else if s.readers != {} {
      u :| u in s.readers;
    }
    assert Placed(s, u);
    Moves(c, s, u, i);
  }

  /** The cache height never decreases along any schedule. */
  lemma CacheHeightMonotone(c: Chain, before: seq<(Caller, Input)>, after: seq<(Caller, Input)>)
    requires Growing(c)
    ensures Exec(c, Initial(), before).cacheHeight <= Exec(c, Initial(), before + after).cacheHeight
  {
    InitialInv(c);
    ExecKeepsInv(c, Initial(), before);
    ExecKeepsInv(c, Exec(c, Initial(), before), after);
    ExecAppend(c, Initial(), before, after);
  }

  lemma {:induction false} ExecAppend(c: Chain, s: State, before: seq<(Caller, Input)>, after: seq<(Caller, Input)>)
    ensures Exec(c, s, before + after) == Exec(c, Exec(c, s, before), after)
    decreases before
  {
    hide Step;
    if before == [] {
      assert before + after == after;
    } else {
      assert (before + after)[1..] == before[1..] + after;
      ExecAppend(c, Step(c, s, before[0].0, before[0].1), before[1..], after);
    }
  }
}
