/** The messages of the codec: Module (generated without unknown-field storage),
    and Token with its nested WalletDistribution and TokenTax. */
module Messages {
  import opened Common
  import opened Wire
  import opened MessageCodec

  datatype Module = Module(authority: Bytes)

  datatype WalletDistribution = WalletDistribution(address: Bytes, percent: nat, unknown: Bytes)

  datatype TokenTax = TokenTax(percent: Bytes, recipientAddress: Bytes, unknown: Bytes)

  datatype Token = Token(
    id: Bytes, name: Bytes, symbol: Bytes, initialSupply: Bytes, totalSupply: Bytes, decimals: nat, logo: Bytes,
    distributions: seq<WalletDistribution>, tax: Option<TokenTax>, creator: Bytes, remainingSupply: Bytes,
    unlimited: bool, minimalDenom: Bytes, unknown: Bytes)

  const EMPTY_DISTRIBUTION := WalletDistribution([], 0, [])
  const EMPTY_TAX := TokenTax([], [], [])
  const EMPTY_TOKEN := Token([], [], [], [], [], 0, [], [], None, [], [], false, [], [])

  /** Options of the protobuf runtime: whether a nested Unmarshal merges into the
      message it is given or clears it first, and whether unknown fields are dropped. */
  datatype Options = Options(merge: bool, discardUnknown: bool)

  function Keep(o: Options, kept: Bytes, raw: Bytes): Bytes {
    if o.discardUnknown then kept else kept + raw
  }

  // ---------- marshal ----------

  function Tagged(tag: byte, b: Bytes): Bytes { [tag] + EncodeVarint(|b|) + b }

  function BytesPart(tag: byte, b: Bytes): Bytes {
    if |b| > 0 then Tagged(tag, b) else []
  }

  function Uint32Part(tag: byte, v: nat): Bytes {
    if v != 0 then [tag] + EncodeVarint(v) else []
  }

  function BoolPart(tag: byte, v: bool): Bytes {
    if v then [tag, 1] else []
  }

  function EncodeModule(m: Module): Bytes { BytesPart(0x0a, m.authority) }

  function EncodeDistribution(d: WalletDistribution): Bytes {
    BytesPart(0x0a, d.address) + (Uint32Part(0x10, d.percent) + d.unknown)
  }

  function EncodeTax(t: TokenTax): Bytes {
    BytesPart(0x0a, t.percent) + (BytesPart(0x12, t.recipientAddress) + t.unknown)
  }

  function DistributionsPart(ds: seq<WalletDistribution>): Bytes {
    if ds == [] then [] else Tagged(0x42, EncodeDistribution(ds[0])) + DistributionsPart(ds[1..])
  }

  function TaxPart(t: Option<TokenTax>): Bytes {
    if t.Some? then Tagged(0x4a, EncodeTax(t.value)) else []
  }

  function EncodeToken(t: Token): Bytes {
    BytesPart(0x0a, t.id) + (BytesPart(0x12, t.name) + (BytesPart(0x1a, t.symbol) + (
    BytesPart(0x22, t.initialSupply) + (BytesPart(0x2a, t.totalSupply) + EncodeFromDecimals(t)))))
  }

  function EncodeFromDecimals(t: Token): Bytes {
    Uint32Part(0x30, t.decimals) + (BytesPart(0x3a, t.logo) + (DistributionsPart(t.distributions) + (
    TaxPart(t.tax) + EncodeFromCreator(t))))
  }

  function EncodeFromCreator(t: Token): Bytes {
    BytesPart(0x52, t.creator) + (BytesPart(0x5a, t.remainingSupply) + (BoolPart(0x60, t.unlimited) + (
    BytesPart(0x6a, t.minimalDenom) + t.unknown)))
  }

  // ---------- unmarshal ----------

  function ModuleKind(num: int): Kind { if num == 1 then BytesField else UnknownField }

  function ApplyModule(m: Module, f: RawField): Result<Module> {
    match f
    case BytesOf(_, b) => Ok(Module(b))
    case _ => Ok(m)
  }

  function ModuleCodec(): Codec<Module> { Codec(ModuleKind, ApplyModule) }

  function DistributionKind(num: int): Kind {
    if num == 1 then BytesField else if num == 2 then VarintField else UnknownField
  }

  function ApplyDistribution(o: Options, d: WalletDistribution, f: RawField): Result<WalletDistribution> {
    match f
    case BytesOf(_, b) => Ok(d.(address := b))
    case VarintOf(_, v) => Ok(d.(percent := v % TWO_32))
    case UnknownOf(raw) => Ok(d.(unknown := Keep(o, d.unknown, raw)))
  }

  function DistributionCodec(o: Options): Codec<WalletDistribution> {
    Codec(DistributionKind, (d: WalletDistribution, f: RawField) => ApplyDistribution(o, d, f))
  }

  function TaxKind(num: int): Kind { if num in {1, 2} then BytesField else UnknownField }

  function ApplyTax(o: Options, t: TokenTax, f: RawField): Result<TokenTax> {
    match f
    case BytesOf(num, b) => if num == 1 then Ok(t.(percent := b)) else Ok(t.(recipientAddress := b))
    case UnknownOf(raw) => Ok(t.(unknown := Keep(o, t.unknown, raw)))
    case VarintOf(_, _) => Ok(t)
  }

  function TaxCodec(o: Options): Codec<TokenTax> {
    Codec(TaxKind, (t: TokenTax, f: RawField) => ApplyTax(o, t, f))
  }

  function TokenKind(num: int): Kind {
    if num in {6, 12} then VarintField else if 1 <= num <= 13 then BytesField else UnknownField
  }

  function ApplyToken(o: Options, t: Token, f: RawField): Result<Token> {
    match f
    case UnknownOf(raw) => Ok(t.(unknown := Keep(o, t.unknown, raw)))
    case VarintOf(num, v) => if num == 6 then Ok(t.(decimals := v % TWO_32)) else Ok(t.(unlimited := v != 0))
    case BytesOf(num, b) => ApplyTokenBytes(o, t, num, b)
  }

  function ApplyTokenBytes(o: Options, t: Token, num: int, b: Bytes): Result<Token> {
    match num
    case 1 => Ok(t.(id := b))
    case 2 => Ok(t.(name := b))
    case 3 => Ok(t.(symbol := b))
    case 4 => Ok(t.(initialSupply := b))
    case 5 => Ok(t.(totalSupply := b))
    case 7 => Ok(t.(logo := b))
    case 8 =>
      var d :- Decode(DistributionCodec(o), 0, b, EMPTY_DISTRIBUTION);
      Ok(t.(distributions := t.distributions + [d]))
    case 9 =>
      var x :- Decode(TaxCodec(o), 0, b, if o.merge && t.tax.Some? then t.tax.value else EMPTY_TAX);
      Ok(t.(tax := Some(x)))
    case 10 => Ok(t.(creator := b))
    case 11 => Ok(t.(remainingSupply := b))
    case 13 => Ok(t.(minimalDenom := b))
    case _ => Ok(t)
  }

  function TokenCodec(o: Options): Codec<Token> {
    Codec(TokenKind, (t: Token, f: RawField) => ApplyToken(o, t, f))
  }

  // ---------- the values that occur ----------

  /** Bytes an unmarshal can have kept as unknown: whole fields with other numbers. */
  ghost predicate UnknownFields(kind: int -> Kind, raw: Bytes) {
    exists items :: RenderAll(items) == raw && AllUnknown(kind, items)
  }

  ghost predicate AllUnknown(kind: int -> Kind, items: seq<Item>) {
    AllAccepted(kind, items) && forall it <- items :: kind(ItemNumber(it)).UnknownField?
  }

  ghost predicate ValidDistribution(d: WalletDistribution) {
    d.percent < TWO_32 && UnknownFields(DistributionKind, d.unknown)
  }

  ghost predicate ValidTax(t: TokenTax) { UnknownFields(TaxKind, t.unknown) }

  ghost predicate ValidToken(t: Token) {
    && t.decimals < TWO_32
    && UnknownFields(TokenKind, t.unknown)
    && (forall d <- t.distributions :: ValidDistribution(d))
    && (t.tax.Some? ==> ValidTax(t.tax.value))
  }

  /** What decoding keeps of a message under the options: everything, or
      everything but unknown fields at every level. */
  function KeptDistribution(o: Options, d: WalletDistribution): WalletDistribution {
    if o.discardUnknown then d.(unknown := []) else d
  }

  function KeptTax(o: Options, t: TokenTax): TokenTax {
    if o.discardUnknown then t.(unknown := []) else t
  }

  function KeptDistributions(o: Options, ds: seq<WalletDistribution>): seq<WalletDistribution> {
    if ds == [] then [] else [KeptDistribution(o, ds[0])] + KeptDistributions(o, ds[1..])
  }

  function Kept(o: Options, t: Token): Token {
    t.(distributions := KeptDistributions(o, t.distributions),
       tax := if t.tax.Some? then Some(KeptTax(o, t.tax.value)) else None,
       unknown := if o.discardUnknown then [] else t.unknown)
  }

  // ---------- one field at a time ----------

  lemma OneByteTag(tag: byte)
    requires tag < 128
    ensures IsVarint([tag]) && VarintValue([tag]) == tag
  {
    assert [tag][1..] == [];
    assert GroupsValue([tag][1..]) == 0;
  }

  lemma EncodedIsVarint(v: nat)
    requires v < TWO_64
    ensures IsVarint(EncodeVarint(v)) && VarintValue(EncodeVarint(v)) == v
  {
    var b := EncodeVarint(v);
    VarintRoundTrip(v, []);
    assert b + [] == b && b[..|b|] == b;
    ReadVarintExact(b, |b|);
  }

  ghost function DelimitedOf(tag: byte, b: Bytes): Item { Delimited([tag], EncodeVarint(|b|), b) }

  lemma DelimitedAccepted(kind: int -> Kind, tag: byte, num: nat, b: Bytes)
    requires tag < 128 && tag == 8 * num + 2 && num > 0 && kind(num).BytesField? && |b| < TWO_63
    ensures Accepted(kind, DelimitedOf(tag, b)) && FieldOf(kind, DelimitedOf(tag, b)) == BytesOf(num, b)
    ensures Render(DelimitedOf(tag, b)) == Tagged(tag, b)
  {
    hide IsVarint, VarintValue;
    OneByteTag(tag);
    EncodedIsVarint(|b|);
    assert FieldNumber(tag) == num;
  }

  lemma ScalarAccepted(kind: int -> Kind, tag: byte, num: nat, v: nat)
    requires tag < 128 && tag == 8 * num && num > 0 && kind(num).VarintField? && v < TWO_64
    ensures var it := Scalar([tag], EncodeVarint(v));
            Accepted(kind, it) && FieldOf(kind, it) == VarintOf(num, v) && Render(it) == [tag] + EncodeVarint(v)
  {
    hide IsVarint, VarintValue;
    OneByteTag(tag);
    EncodedIsVarint(v);
    assert FieldNumber(tag) == num;
  }

  /** Decoding one leading field applies it and goes on after it. `total` is the
      length of the whole buffer. */
  lemma StepItem<M>(c: Codec<M>, total: nat, it: Item, rest: Bytes, m: M, m': M)
    requires Accepted(c.kind, it) && c.apply(m, FieldOf(c.kind, it)) == Ok(m')
    requires |Render(it)| + |rest| <= total < TWO_63
    ensures Decode(c, total - |Render(it) + rest|, Render(it) + rest, m) == Decode(c, total - |rest|, rest, m')
  {
    hide NextField, Accepted, FieldOf, Render;
    var s := Render(it) + rest;
    NextFieldOfItem(c.kind, total - |s|, it, rest);
    assert s[|Render(it)|..] == rest;
    RenderedNonEmpty(c.kind, it);
  }

  lemma StepBytes<M>(c: Codec<M>, total: nat, tag: byte, num: nat, b: Bytes, rest: Bytes, m: M, m': M)
    requires tag < 128 && tag == 8 * num + 2 && num > 0 && c.kind(num).BytesField?
    requires |Tagged(tag, b)| + |rest| <= total < TWO_63
    requires c.apply(m, BytesOf(num, b)) == Ok(m')
    ensures Decode(c, total - |Tagged(tag, b) + rest|, Tagged(tag, b) + rest, m) == Decode(c, total - |rest|, rest, m')
  {
    hide Decode, FieldOf, Accepted, Render;
    DelimitedAccepted(c.kind, tag, num, b);
    StepItem(c, total, DelimitedOf(tag, b), rest, m, m');
  }

  /** A string field is written only when it is not empty. */
  lemma StepString<M>(c: Codec<M>, total: nat, tag: byte, num: nat, b: Bytes, rest: Bytes, m: M, m': M)
    requires tag < 128 && tag == 8 * num + 2 && num > 0 && c.kind(num).BytesField?
    requires |BytesPart(tag, b)| + |rest| <= total < TWO_63
    requires c.apply(m, BytesOf(num, b)) == Ok(m') && (b == [] ==> m == m')
    ensures Decode(c, total - |BytesPart(tag, b) + rest|, BytesPart(tag, b) + rest, m)
         == Decode(c, total - |rest|, rest, m')
  {
    hide Decode;
    if b == [] {
      assert BytesPart(tag, b) + rest == rest;
    } else {
      StepBytes(c, total, tag, num, b, rest, m, m');
    }
  }

  lemma StepUint<M>(c: Codec<M>, total: nat, tag: byte, num: nat, v: nat, rest: Bytes, m: M, m': M)
    requires tag < 128 && tag == 8 * num && num > 0 && c.kind(num).VarintField? && v < TWO_64
    requires |Uint32Part(tag, v)| + |rest| <= total < TWO_63
    requires c.apply(m, VarintOf(num, v)) == Ok(m') && (v == 0 ==> m == m')
    ensures Decode(c, total - |Uint32Part(tag, v) + rest|, Uint32Part(tag, v) + rest, m)
         == Decode(c, total - |rest|, rest, m')
  {
    hide Decode, FieldOf, Accepted, Render;
    if v == 0 {
      assert Uint32Part(tag, v) + rest == rest;
    } else {
      ScalarAccepted(c.kind, tag, num, v);
      StepItem(c, total, Scalar([tag], EncodeVarint(v)), rest, m, m');
    }
  }

  /** Unknown fields at the end of a message are appended to what is kept. */
  lemma {:induction false} FoldUnknown<M>(c: Codec<M>, items: seq<Item>, m: M, add: (M, Bytes) -> M)
    requires AllUnknown(c.kind, items)
    requires forall x, raw {:trigger c.apply(x, UnknownOf(raw))} :: c.apply(x, UnknownOf(raw)) == Ok(add(x, raw))
    requires forall x, a, b {:trigger add(add(x, a), b)} :: add(add(x, a), b) == add(x, a + b)
    requires forall x {:trigger add(x, [])} :: add(x, []) == x
    ensures Fold(c, items, m) == Ok(add(m, RenderAll(items)))
  {
    hide Accepted;
    if items == [] {
      assert add(m, []) == m;
    } else {
      assert items[0] in items;
      FieldOfUnknown(c.kind, items[0]);
      FoldUnknown(c, items[1..], add(m, Render(items[0])), add);
      assert add(add(m, Render(items[0])), RenderAll(items[1..])) == add(m, RenderAll(items));
    }
  }

  lemma FieldOfUnknown(kind: int -> Kind, it: Item)
    requires Accepted(kind, it) && kind(ItemNumber(it)).UnknownField?
    ensures FieldOf(kind, it) == UnknownOf(Render(it))
  {
  }
}
