/** Unmarshal undoes Marshal, for every value of the message types, and what
    Unmarshal accepts can always be written and read again. */
module RoundTrip {
  import opened Common
  import opened Wire
  import opened MessageCodec
  import opened Messages

  // ---------- Module ----------

  lemma ModuleRoundTrip(m: Module)
    requires |EncodeModule(m)| < TWO_63
    ensures Decode(ModuleCodec(), 0, EncodeModule(m), Module([])) == Ok(m)
  {
    var s := EncodeModule(m);
    StepString(ModuleCodec(), |s|, 0x0a, 1, m.authority, [], Module([]), m);
    assert s + [] == s;
  }

  /** The payload of the last field with number 1, or the value held before. */
  ghost function LastAuthority(items: seq<Item>, held: Bytes): Bytes
    requires AllAccepted(ModuleKind, items)
  {
    if items == [] then held
    else
      var last := items[|items| - 1];
      assert last in items;
      if ItemNumber(last) == 1 then last.data else LastAuthority(items[..|items| - 1], held)
  }

  /** "Last one wins": whatever else the fields are, Authority ends up as the
      payload of the last field 1; unknown fields leave no trace. */
  lemma {:induction false} ModuleLastWins(items: seq<Item>, m: Module)
    requires AllAccepted(ModuleKind, items)
    ensures Fold(ModuleCodec(), items, m) == Ok(Module(LastAuthority(items, m.authority)))
  {
    hide Accepted;
    if items != [] {
      var init := items[..|items| - 1];
      var last := items[|items| - 1];
      assert items == init + [last] && last in items;
      ModuleLastWins(init, m);
      FoldAppend(ModuleCodec(), init, [last], m);
      var m1 := Module(LastAuthority(init, m.authority));
      assert Fold(ModuleCodec(), [last][1..], ApplyModule(m1, FieldOf(ModuleKind, last)).value)
          == Ok(ApplyModule(m1, FieldOf(ModuleKind, last)).value);
      ModuleFieldOf(last);
    }
  }

  lemma ModuleFieldOf(it: Item)
    requires Accepted(ModuleKind, it)
    ensures FieldOf(ModuleKind, it) == if ItemNumber(it) == 1 then BytesOf(1, it.data) else UnknownOf(Render(it))
    ensures ItemNumber(it) == 1 ==> it.Delimited?
  {
  }

  // ---------- the tail of a message ----------

  lemma DistributionTail(o: Options, off: nat, raw: Bytes, d: WalletDistribution)
    requires UnknownFields(DistributionKind, raw) && off + |raw| < TWO_63
    ensures Decode(DistributionCodec(o), off, raw, d) == Ok(d.(unknown := Keep(o, d.unknown, raw)))
  {
    var c := DistributionCodec(o);
    var items :| RenderAll(items) == raw && AllUnknown(DistributionKind, items);
    DecodeRendered(c, off, items, d);
    var add := (x: WalletDistribution, a: Bytes) => x.(unknown := Keep(o, x.unknown, a));
    KeepLaws(o);
    FoldUnknown(c, items, d, add);
  }

  lemma TaxTail(o: Options, off: nat, raw: Bytes, t: TokenTax)
    requires UnknownFields(TaxKind, raw) && off + |raw| < TWO_63
    ensures Decode(TaxCodec(o), off, raw, t) == Ok(t.(unknown := Keep(o, t.unknown, raw)))
  {
    var c := TaxCodec(o);
    var items :| RenderAll(items) == raw && AllUnknown(TaxKind, items);
    DecodeRendered(c, off, items, t);
    var add := (x: TokenTax, a: Bytes) => x.(unknown := Keep(o, x.unknown, a));
    KeepLaws(o);
    FoldUnknown(c, items, t, add);
  }

  lemma TokenTail(o: Options, off: nat, raw: Bytes, t: Token)
    requires UnknownFields(TokenKind, raw) && off + |raw| < TWO_63
    ensures Decode(TokenCodec(o), off, raw, t) == Ok(t.(unknown := Keep(o, t.unknown, raw)))
  {
    var c := TokenCodec(o);
    var items :| RenderAll(items) == raw && AllUnknown(TokenKind, items);
    DecodeRendered(c, off, items, t);
    var add := (x: Token, a: Bytes) => x.(unknown := Keep(o, x.unknown, a));
    KeepLaws(o);
    FoldUnknown(c, items, t, add);
  }

  lemma KeepLaws(o: Options)
    ensures forall u, a, b {:trigger Keep(o, Keep(o, u, a), b)} :: Keep(o, Keep(o, u, a), b) == Keep(o, u, a + b)
    ensures forall u {:trigger Keep(o, u, [])} :: Keep(o, u, []) == u
  {
    forall u: Bytes, a: Bytes, b: Bytes ensures Keep(o, Keep(o, u, a), b) == Keep(o, u, a + b) {
      assert u + a + b == u + (a + b);
    }
    forall u: Bytes ensures Keep(o, u, []) == u {
      assert u + [] == u;
    }
  }

  // ---------- nested messages ----------

  lemma DistributionRoundTrip(o: Options, d: WalletDistribution)
    requires ValidDistribution(d) && |EncodeDistribution(d)| < TWO_63
    ensures Decode(DistributionCodec(o), 0, EncodeDistribution(d), EMPTY_DISTRIBUTION) == Ok(KeptDistribution(o, d))
  {
    hide Decode, UnknownFields;
    var c := DistributionCodec(o);
    var s := EncodeDistribution(d);
    var m1 := EMPTY_DISTRIBUTION.(address := d.address);
    var m2 := m1.(percent := d.percent);
    var s1 := Uint32Part(0x10, d.percent) + d.unknown;
    StepString(c, |s|, 0x0a, 1, d.address, s1, EMPTY_DISTRIBUTION, m1);
    StepUint(c, |s|, 0x10, 2, d.percent, d.unknown, m1, m2);
    DistributionTail(o, |s| - |d.unknown|, d.unknown, m2);
    assert [] + d.unknown == d.unknown;
  }

  lemma TaxRoundTrip(o: Options, t: TokenTax)
    requires ValidTax(t) && |EncodeTax(t)| < TWO_63
    ensures Decode(TaxCodec(o), 0, EncodeTax(t), EMPTY_TAX) == Ok(KeptTax(o, t))
  {
    hide Decode, UnknownFields;
    var c := TaxCodec(o);
    var s := EncodeTax(t);
    var m1 := EMPTY_TAX.(percent := t.percent);
    var m2 := m1.(recipientAddress := t.recipientAddress);
    var s1 := BytesPart(0x12, t.recipientAddress) + t.unknown;
    StepString(c, |s|, 0x0a, 1, t.percent, s1, EMPTY_TAX, m1);
    StepString(c, |s|, 0x12, 2, t.recipientAddress, t.unknown, m1, m2);
    TaxTail(o, |s| - |t.unknown|, t.unknown, m2);
    assert [] + t.unknown == t.unknown;
  }

  lemma StepDistribution(o: Options, total: nat, d: WalletDistribution, rest: Bytes, m: Token)
    requires ValidDistribution(d)
    requires var part := Tagged(0x42, EncodeDistribution(d)); |part| + |rest| <= total < TWO_63
    ensures var s := Tagged(0x42, EncodeDistribution(d)) + rest;
            Decode(TokenCodec(o), total - |s|, s, m) ==
            Decode(TokenCodec(o), total - |rest|, rest, m.(distributions := m.distributions + [KeptDistribution(o, d)]))
  {
    hide Decode, ValidDistribution, EncodeDistribution;
    DistributionRoundTrip(o, d);
    StepBytes(TokenCodec(o), total, 0x42, 8, EncodeDistribution(d), rest, m,
              m.(distributions := m.distributions + [KeptDistribution(o, d)]));
  }

  lemma {:induction false} StepDistributions(o: Options, total: nat, ds: seq<WalletDistribution>, rest: Bytes, m: Token)
    requires forall d <- ds :: ValidDistribution(d)
    requires |DistributionsPart(ds)| + |rest| <= total < TWO_63
    ensures var s := DistributionsPart(ds) + rest;
            Decode(TokenCodec(o), total - |s|, s, m) ==
            Decode(TokenCodec(o), total - |rest|, rest, m.(distributions := m.distributions + KeptDistributions(o, ds)))
  {
    hide Decode, ValidDistribution, EncodeDistribution, Tagged, TokenCodec, KeptDistribution;
    if ds == [] {
      assert DistributionsPart(ds) + rest == rest;
      assert m.distributions + KeptDistributions(o, ds) == m.distributions;
    } else {
      var b := EncodeDistribution(ds[0]);
      var more := DistributionsPart(ds[1..]) + rest;
      var m1 := m.(distributions := m.distributions + [KeptDistribution(o, ds[0])]);
      assert DistributionsPart(ds) + rest == Tagged(0x42, b) + more;
      StepDistribution(o, total, ds[0], more, m);
      StepDistributions(o, total, ds[1..], rest, m1);
      assert m1.distributions + KeptDistributions(o, ds[1..]) == m.distributions + KeptDistributions(o, ds);
    }
  }

  lemma StepTax(o: Options, total: nat, t: Option<TokenTax>, rest: Bytes, m: Token)
    requires t.Some? ==> ValidTax(t.value)
    requires m.tax == None && |TaxPart(t)| + |rest| <= total < TWO_63
    ensures var s := TaxPart(t) + rest;
            Decode(TokenCodec(o), total - |s|, s, m) ==
            Decode(TokenCodec(o), total - |rest|, rest, m.(tax := if t.Some? then Some(KeptTax(o, t.value)) else None))
  {
    hide Decode, ValidTax;
    if t.None? {
      assert TaxPart(t) + rest == rest;
    } else {
      TaxRoundTrip(o, t.value);
      StepBytes(TokenCodec(o), total, 0x4a, 9, EncodeTax(t.value), rest, m, m.(tax := Some(KeptTax(o, t.value))));
    }
  }

  // ---------- Token ----------

  function FirstFive(t: Token): Token {
    EMPTY_TOKEN.(id := t.id, name := t.name, symbol := t.symbol, initialSupply := t.initialSupply,
                 totalSupply := t.totalSupply)
  }

  function UpToTax(o: Options, t: Token): Token {
    FirstFive(t).(decimals := t.decimals, logo := t.logo, distributions := KeptDistributions(o, t.distributions),
                  tax := if t.tax.Some? then Some(KeptTax(o, t.tax.value)) else None)
  }

  lemma DecodeFirstFive(o: Options, t: Token)
    requires |EncodeToken(t)| < TWO_63
    ensures Decode(TokenCodec(o), 0, EncodeToken(t), EMPTY_TOKEN)
         == Decode(TokenCodec(o), |EncodeToken(t)| - |EncodeFromDecimals(t)|, EncodeFromDecimals(t), FirstFive(t))
  {
    hide Decode, EncodeFromDecimals, BytesPart;
    var c := TokenCodec(o);
    var n := |EncodeToken(t)|;
    var s5 := EncodeFromDecimals(t);
    var s4 := BytesPart(0x2a, t.totalSupply) + s5;
    var s3 := BytesPart(0x22, t.initialSupply) + s4;
    var s2 := BytesPart(0x1a, t.symbol) + s3;
    var s1 := BytesPart(0x12, t.name) + s2;
    var m1 := EMPTY_TOKEN.(id := t.id);
    var m2 := m1.(name := t.name);
    var m3 := m2.(symbol := t.symbol);
    var m4 := m3.(initialSupply := t.initialSupply);
    StepString(c, n, 0x0a, 1, t.id, s1, EMPTY_TOKEN, m1);
    StepString(c, n, 0x12, 2, t.name, s2, m1, m2);
    StepString(c, n, 0x1a, 3, t.symbol, s3, m2, m3);
    StepString(c, n, 0x22, 4, t.initialSupply, s4, m3, m4);
    StepString(c, n, 0x2a, 5, t.totalSupply, s5, m4, FirstFive(t));
  }

  lemma DecodeUpToTax(o: Options, t: Token, total: nat)
    requires ValidToken(t) && |EncodeFromDecimals(t)| <= total < TWO_63
    ensures Decode(TokenCodec(o), total - |EncodeFromDecimals(t)|, EncodeFromDecimals(t), FirstFive(t))
         == Decode(TokenCodec(o), total - |EncodeFromCreator(t)|, EncodeFromCreator(t), UpToTax(o, t))
  {
    hide Decode, EncodeFromCreator, BytesPart, Uint32Part, DistributionsPart, TaxPart, ValidTax, ValidDistribution;
    var c := TokenCodec(o);
    var s4 := EncodeFromCreator(t);
    var s3 := TaxPart(t.tax) + s4;
    var s2 := DistributionsPart(t.distributions) + s3;
    var s1 := BytesPart(0x3a, t.logo) + s2;
    var m1 := FirstFive(t).(decimals := t.decimals);
    var m2 := m1.(logo := t.logo);
    var m3 := m2.(distributions := KeptDistributions(o, t.distributions));
    StepUint(c, total, 0x30, 6, t.decimals, s1, FirstFive(t), m1);
    StepString(c, total, 0x3a, 7, t.logo, s2, m1, m2);
    StepDistributions(o, total, t.distributions, s3, m2);
    assert m2.distributions + KeptDistributions(o, t.distributions) == KeptDistributions(o, t.distributions);
    StepTax(o, total, t.tax, s4, m3);
  }

  lemma KeepFromNone(o: Options, raw: Bytes)
    ensures Keep(o, [], raw) == if o.discardUnknown then [] else raw
  {
    assert [] + raw == raw;
  }

  lemma BoolAsVarint(tag: byte, v: bool)
    ensures BoolPart(tag, v) == Uint32Part(tag, if v then 1 else 0)
  {
  }

  lemma DecodeFromCreator(o: Options, t: Token, total: nat)
    requires ValidToken(t) && |EncodeFromCreator(t)| <= total < TWO_63
    ensures Decode(TokenCodec(o), total - |EncodeFromCreator(t)|, EncodeFromCreator(t), UpToTax(o, t)) == Ok(Kept(o, t))
  {
    hide Decode, BytesPart, Uint32Part, BoolPart, UnknownFields, ValidTax, ValidDistribution,
      KeptDistributions, KeptTax;
    var c := TokenCodec(o);
    var s3 := BytesPart(0x6a, t.minimalDenom) + t.unknown;
    var s2 := BoolPart(0x60, t.unlimited) + s3;
    var s1 := BytesPart(0x5a, t.remainingSupply) + s2;
    var m0 := UpToTax(o, t);
    var m1 := m0.(creator := t.creator);
    var m2 := m1.(remainingSupply := t.remainingSupply);
    var m3 := m2.(unlimited := t.unlimited);
    var m4 := m3.(minimalDenom := t.minimalDenom);
    StepString(c, total, 0x52, 10, t.creator, s1, m0, m1);
    StepString(c, total, 0x5a, 11, t.remainingSupply, s2, m1, m2);
    BoolAsVarint(0x60, t.unlimited);
    StepUint(c, total, 0x60, 12, if t.unlimited then 1 else 0, s3, m2, m3);
    StepString(c, total, 0x6a, 13, t.minimalDenom, t.unknown, m3, m4);
    TokenTail(o, total - |t.unknown|, t.unknown, m4);
    KeepFromNone(o, t.unknown);
    hide TokenCodec, ValidToken, Keep;
  }

  /** unmarshal(marshal(t)) == t for every token a Go program can hold: repeated
      order, absent versus empty Tax, the uint32 and bool fields and the unknown
      bytes at every level are preserved (or, when the options say so, exactly the
      unknown bytes are dropped). */
  lemma TokenRoundTrip(o: Options, t: Token)
    requires ValidToken(t) && |EncodeToken(t)| < TWO_63
    ensures Decode(TokenCodec(o), 0, EncodeToken(t), EMPTY_TOKEN) == Ok(Kept(o, t))
    ensures !o.discardUnknown ==> Kept(o, t) == t
  {
    hide Decode, ValidToken, EncodeFromCreator;
    DecodeFirstFive(o, t);
    DecodeUpToTax(o, t, |EncodeToken(t)|);
    DecodeFromCreator(o, t, |EncodeToken(t)|);
    if !o.discardUnknown { KeptAll(o, t.distributions); }
  }

  lemma {:induction false} KeptAll(o: Options, ds: seq<WalletDistribution>)
    requires !o.discardUnknown
    ensures KeptDistributions(o, ds) == ds
  {
    if ds != [] {
      KeptAll(o, ds[1..]);
    }
  }

  // ---------- everything decoded can be encoded again ----------

  lemma UnknownAppend(kind: int -> Kind, raw: Bytes, it: Item)
    requires UnknownFields(kind, raw) && Accepted(kind, it) && kind(ItemNumber(it)).UnknownField?
    ensures UnknownFields(kind, raw + Render(it))
  {
    hide Accepted, Render;
    var items :| RenderAll(items) == raw && AllUnknown(kind, items);
    RenderAppend(items, [it]);
    assert RenderAll([it]) == Render(it) by { assert RenderAll([it][1..]) == []; assert Render(it) + [] == Render(it); }
    assert AllUnknown(kind, items + [it]);
  }

  lemma NoUnknown(kind: int -> Kind)
    ensures UnknownFields(kind, [])
  {
    assert RenderAll([]) == [];
    assert AllUnknown(kind, []);
  }

  /** A property of messages kept by every accepted field is kept by decoding. */
  lemma {:induction false} DecodeKeeps<M>(c: Codec<M>, off: nat, s: Bytes, m: M, inv: M -> bool)
    requires inv(m) && Decode(c, off, s, m).Ok?
    requires forall x, it {:trigger c.apply(x, FieldOf(c.kind, it))} ::
               inv(x) && Accepted(c.kind, it) && c.apply(x, FieldOf(c.kind, it)).Ok?
               ==> inv(c.apply(x, FieldOf(c.kind, it)).value)
    ensures inv(Decode(c, off, s, m).value)
    decreases |s|
  {
    hide NextField, Accepted, FieldOf;
    if s != [] {
      var it := ItemOfNextField(c.kind, off, s);
      var f := NextField(c.kind, off, s).value;
      assert f.item == FieldOf(c.kind, it);
      DecodeKeeps(c, off + f.len, s[f.len..], c.apply(m, f.item).value, inv);
    }
  }

  lemma DecodedDistribution(o: Options, s: Bytes)
    requires Decode(DistributionCodec(o), 0, s, EMPTY_DISTRIBUTION).Ok?
    ensures ValidDistribution(Decode(DistributionCodec(o), 0, s, EMPTY_DISTRIBUTION).value)
  {
    hide Decode, UnknownFields, Accepted, Render;
    var c := DistributionCodec(o);
    NoUnknown(DistributionKind);
    forall x, it | ValidDistribution(x) && Accepted(c.kind, it) && c.apply(x, FieldOf(c.kind, it)).Ok?
      ensures ValidDistribution(c.apply(x, FieldOf(c.kind, it)).value)
    {
      if c.kind(ItemNumber(it)).UnknownField? { FieldOfUnknown(c.kind, it); UnknownAppend(c.kind, x.unknown, it); }
    }
    DecodeKeeps(c, 0, s, EMPTY_DISTRIBUTION, x => ValidDistribution(x));
  }

  lemma DecodedTax(o: Options, s: Bytes, m: TokenTax)
    requires ValidTax(m) && Decode(TaxCodec(o), 0, s, m).Ok?
    ensures ValidTax(Decode(TaxCodec(o), 0, s, m).value)
  {
    hide Decode, UnknownFields, Accepted, Render;
    var c := TaxCodec(o);
    forall x, it | ValidTax(x) && Accepted(c.kind, it) && c.apply(x, FieldOf(c.kind, it)).Ok?
      ensures ValidTax(c.apply(x, FieldOf(c.kind, it)).value)
    {
      if c.kind(ItemNumber(it)).UnknownField? { FieldOfUnknown(c.kind, it); UnknownAppend(c.kind, x.unknown, it); }
    }
    DecodeKeeps(c, 0, s, m, x => ValidTax(x));
  }

  lemma AppliedToken(o: Options, x: Token, it: Item)
    requires ValidToken(x) && Accepted(TokenKind, it) && ApplyToken(o, x, FieldOf(TokenKind, it)).Ok?
    ensures ValidToken(ApplyToken(o, x, FieldOf(TokenKind, it)).value)
  {
    hide Decode, UnknownFields, Accepted, Render, ValidTax, ValidDistribution;
    match FieldOf(TokenKind, it) {
      case UnknownOf(raw) =>
        FieldOfUnknown(TokenKind, it);
        UnknownAppend(TokenKind, x.unknown, it);
      case VarintOf(num, v) =>
      case BytesOf(num, b) =>
        if num == 8 {
          DecodedDistribution(o, b);
        } else if num == 9 {
          NoUnknown(TaxKind);
          EmptyTaxValid();
          DecodedTax(o, b, if o.merge && x.tax.Some? then x.tax.value else EMPTY_TAX);
        }
    }
  }

  lemma EmptyTaxValid()
    ensures ValidTax(EMPTY_TAX)
  {
    NoUnknown(TaxKind);
  }

  lemma DecodedToken(o: Options, s: Bytes)
    requires Decode(TokenCodec(o), 0, s, EMPTY_TOKEN).Ok?
    ensures ValidToken(Decode(TokenCodec(o), 0, s, EMPTY_TOKEN).value)
  {
    hide Decode, Accepted, FieldOf, ApplyToken;
    var c := TokenCodec(o);
    NoUnknown(TokenKind);
    forall x, it | ValidToken(x) && Accepted(c.kind, it) && c.apply(x, FieldOf(c.kind, it)).Ok?
      ensures ValidToken(c.apply(x, FieldOf(c.kind, it)).value)
    {
      AppliedToken(o, x, it);
    }
    DecodeKeeps(c, 0, s, EMPTY_TOKEN, x => ValidToken(x));
  }

  // ---------- nothing unknown is left when it is discarded ----------

  ghost predicate NothingUnknown(t: Token) {
    && t.unknown == []
    && (forall d <- t.distributions :: d.unknown == [])
    && (t.tax.Some? ==> t.tax.value.unknown == [])
  }

  lemma DiscardedDistribution(o: Options, s: Bytes)
    requires o.discardUnknown && Decode(DistributionCodec(o), 0, s, EMPTY_DISTRIBUTION).Ok?
    ensures Decode(DistributionCodec(o), 0, s, EMPTY_DISTRIBUTION).value.unknown == []
  {
    hide Decode, Accepted, FieldOf;
    DecodeKeeps(DistributionCodec(o), 0, s, EMPTY_DISTRIBUTION, (x: WalletDistribution) => x.unknown == []);
  }

  lemma DiscardedTax(o: Options, s: Bytes, m: TokenTax)
    requires o.discardUnknown && m.unknown == [] && Decode(TaxCodec(o), 0, s, m).Ok?
    ensures Decode(TaxCodec(o), 0, s, m).value.unknown == []
  {
    hide Decode, Accepted, FieldOf;
    DecodeKeeps(TaxCodec(o), 0, s, m, (x: TokenTax) => x.unknown == []);
  }

  lemma DiscardedField(o: Options, x: Token, f: RawField)
    requires o.discardUnknown && NothingUnknown(x) && ApplyToken(o, x, f).Ok?
    ensures NothingUnknown(ApplyToken(o, x, f).value)
  {
    hide Decode;
    if f.BytesOf? && f.num == 8 {
      DiscardedDistribution(o, f.payload);
    } else if f.BytesOf? && f.num == 9 {
      DiscardedTax(o, f.payload, if o.merge && x.tax.Some? then x.tax.value else EMPTY_TAX);
    }
  }

  lemma DiscardedToken(o: Options, s: Bytes)
    requires o.discardUnknown && Decode(TokenCodec(o), 0, s, EMPTY_TOKEN).Ok?
    ensures NothingUnknown(Decode(TokenCodec(o), 0, s, EMPTY_TOKEN).value)
  {
    hide Decode, Accepted, FieldOf, ApplyToken, NothingUnknown;
    var c := TokenCodec(o);
    assert NothingUnknown(EMPTY_TOKEN) by { EmptyNothingUnknown(); }
    forall x, it | NothingUnknown(x) && Accepted(c.kind, it) && c.apply(x, FieldOf(c.kind, it)).Ok?
      ensures NothingUnknown(c.apply(x, FieldOf(c.kind, it)).value)
    {
      DiscardedField(o, x, FieldOf(c.kind, it));
    }
    DecodeKeeps(c, 0, s, EMPTY_TOKEN, x => NothingUnknown(x));
  }

  lemma EmptyNothingUnknown()
    ensures NothingUnknown(EMPTY_TOKEN)
  {
  }

  lemma {:induction false} KeptClean(o: Options, ds: seq<WalletDistribution>)
    requires forall d <- ds :: d.unknown == []
    ensures KeptDistributions(o, ds) == ds
  {
    if ds != [] {
      KeptClean(o, ds[1..]);
    }
  }

  /** Whatever byte string decodes to a token, canonical or not, and whether unknown
      fields are kept or dropped: writing that token and reading it back gives the
      same token. */
  lemma TokenReencode(o: Options, s: Bytes)
    ensures var t := Decode(TokenCodec(o), 0, s, EMPTY_TOKEN);
      t.Ok? && |EncodeToken(t.value)| < TWO_63 ==>
        Decode(TokenCodec(o), 0, EncodeToken(t.value), EMPTY_TOKEN) == t
  {
    hide Decode, EncodeToken;
    var t := Decode(TokenCodec(o), 0, s, EMPTY_TOKEN);
    if t.Ok? && |EncodeToken(t.value)| < TWO_63 {
      DecodedToken(o, s);
      TokenRoundTrip(o, t.value);
      if o.discardUnknown {
        DiscardedToken(o, s);
        KeptClean(o, t.value.distributions);
      }
    }
  }
}
