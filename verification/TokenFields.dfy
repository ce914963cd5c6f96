/** The field table of a token: with which number and wire type each field is read
    and written, in which order, and what wins when a field comes twice. */
module TokenFields {
  import opened Common
  import opened Wire
  import opened MessageCodec
  import opened Messages

  // ---------- reading ----------

  lemma ReadsDelimited<M>(c: Codec<M>, tag: byte, num: nat, b: Bytes, m: M)
    requires tag < 128 && tag == 8 * num + 2 && num > 0 && c.kind(num).BytesField? && |Tagged(tag, b)| < TWO_63
    ensures Decode(c, 0, Tagged(tag, b), m) == c.apply(m, BytesOf(num, b))
  {
    hide Accepted, FieldOf, Decode;
    DelimitedAccepted(c.kind, tag, num, b);
    DecodeOne(c, DelimitedOf(tag, b), m);
  }

  lemma ReadsScalar<M>(c: Codec<M>, tag: byte, num: nat, v: nat, m: M)
    requires tag < 128 && tag == 8 * num && num > 0 && c.kind(num).VarintField? && v < TWO_64
    ensures Decode(c, 0, [tag] + EncodeVarint(v), m) == c.apply(m, VarintOf(num, v))
  {
    hide Accepted, FieldOf, Decode;
    ScalarAccepted(c.kind, tag, num, v);
    VarintRoundTrip(v, []);
    ScalarShort(v);
    DecodeOne(c, Scalar([tag], EncodeVarint(v)), m);
  }

  lemma ScalarShort(v: nat)
    requires v < TWO_64
    ensures |EncodeVarint(v)| <= 10
  {
    EncodedIsVarint(v);
  }

  predicate IsString(num: int) { num in {1, 2, 3, 4, 5, 7, 10, 11, 13} }

  /** The token with its string field of this number set. */
  function WithString(t: Token, num: int, b: Bytes): Token
    requires IsString(num)
  {
    match num
    case 1 => t.(id := b)
    case 2 => t.(name := b)
    case 3 => t.(symbol := b)
    case 4 => t.(initialSupply := b)
    case 5 => t.(totalSupply := b)
    case 7 => t.(logo := b)
    case 10 => t.(creator := b)
    case 11 => t.(remainingSupply := b)
    case _ => t.(minimalDenom := b)
  }

  /** Where the string fields of a token go when read into any token. */
  lemma TokenReadsStrings(o: Options, t: Token, num: nat, b: Bytes)
    requires IsString(num) && |b| < 0x4000_0000_0000_0000
    ensures Decode(TokenCodec(o), 0, [8 * num + 2] + EncodeVarint(|b|) + b, t) == Ok(WithString(t, num, b))
  {
    TokenReadsString(o, t, num, b);
    hide Decode, EncodeVarint;
  }

  lemma TokenReadsString(o: Options, t: Token, num: nat, b: Bytes)
    requires 0 < num < 16 && TokenKind(num).BytesField? && |b| < 0x4000_0000_0000_0000
    ensures Decode(TokenCodec(o), 0, Tagged(8 * num + 2, b), t) == ApplyToken(o, t, BytesOf(num, b))
  {
    hide Decode;
    TaggedShort(0x0a, b);
    ReadsDelimited(TokenCodec(o), 8 * num + 2, num, b, t);
  }

  lemma TaggedShort(tag: byte, b: Bytes)
    requires |b| < 0x4000_0000_0000_0000
    ensures forall other: byte :: |Tagged(other, b)| == 1 + |EncodeVarint(|b|)| + |b| < TWO_63
  {
    ScalarShort(|b|);
  }

  /** Where its other fields go: a uint32 and a bool. */
  lemma TokenReadsNumbers(o: Options, t: Token, v: nat)
    requires v < TWO_64
    ensures Decode(TokenCodec(o), 0, [0x30] + EncodeVarint(v), t) == Ok(t.(decimals := v % 0x1_0000_0000))
    ensures Decode(TokenCodec(o), 0, [0x60] + EncodeVarint(v), t) == Ok(t.(unlimited := v != 0))
  {
    hide Decode, EncodeVarint;
    ReadsScalar(TokenCodec(o), 0x30, 6, v, t);
    ReadsScalar(TokenCodec(o), 0x60, 12, v, t);
  }

  /** An element appended, and a nested message, which replaces or merges into the one held. */
  lemma TokenReadsNested(o: Options, t: Token, b: Bytes)
    requires |b| < 0x4000_0000_0000_0000
    ensures var d := Decode(DistributionCodec(o), 0, b, EMPTY_DISTRIBUTION);
      Decode(TokenCodec(o), 0, Tagged(0x42, b), t) ==
        if d.Ok? then Ok(t.(distributions := t.distributions + [d.value])) else Err(d.error)
    ensures var held := if o.merge && t.tax.Some? then t.tax.value else EMPTY_TAX;
      var x := Decode(TaxCodec(o), 0, b, held);
      Decode(TokenCodec(o), 0, Tagged(0x4a, b), t) == if x.Ok? then Ok(t.(tax := Some(x.value))) else Err(x.error)
  {
    hide Decode, Tagged;
    TokenReadsString(o, t, 8, b);
    TokenReadsString(o, t, 9, b);
  }

  /** The nested messages. */
  lemma NestedReads(o: Options, d: WalletDistribution, x: TokenTax, b: Bytes, v: nat)
    requires |b| < 0x4000_0000_0000_0000 && v < TWO_64
    ensures Decode(DistributionCodec(o), 0, Tagged(0x0a, b), d) == Ok(d.(address := b))
    ensures Decode(DistributionCodec(o), 0, [0x10] + EncodeVarint(v), d) == Ok(d.(percent := v % 0x1_0000_0000))
    ensures Decode(TaxCodec(o), 0, Tagged(0x0a, b), x) == Ok(x.(percent := b))
    ensures Decode(TaxCodec(o), 0, Tagged(0x12, b), x) == Ok(x.(recipientAddress := b))
  {
    hide Decode;
    TaggedShort(0x0a, b);
    ReadsDelimited(DistributionCodec(o), 0x0a, 1, b, d);
    ReadsScalar(DistributionCodec(o), 0x10, 2, v, d);
    ReadsDelimited(TaxCodec(o), 0x0a, 1, b, x);
    ReadsDelimited(TaxCodec(o), 0x12, 2, b, x);
  }

  // ---------- unknown fields ----------

  ghost predicate Unlisted(it: Item, last: nat) {
    WellFormed(it) && |Render(it)| < TWO_63 && ItemNumber(it) > last
  }

  /** A field with a number beyond the table, of whatever wire type, changes no known
      field; its bytes are kept, or dropped if the options say so. */
  lemma UnlistedInToken(o: Options, it: Item, t: Token)
    requires Unlisted(it, 13)
    ensures Decode(TokenCodec(o), 0, Render(it), t) ==
      Ok(t.(unknown := if o.discardUnknown then t.unknown else t.unknown + Render(it)))
  {
    hide Decode, WellFormed, Render, ItemNumber;
    DecodeOne(TokenCodec(o), it, t);
    FieldOfUnknown(TokenKind, it);
  }

  /** The same for the nested messages. */
  lemma UnlistedInNested(o: Options, it: Item, d: WalletDistribution, x: TokenTax)
    requires Unlisted(it, 2)
    ensures Decode(DistributionCodec(o), 0, Render(it), d) ==
      Ok(d.(unknown := if o.discardUnknown then d.unknown else d.unknown + Render(it)))
    ensures Decode(TaxCodec(o), 0, Render(it), x) ==
      Ok(x.(unknown := if o.discardUnknown then x.unknown else x.unknown + Render(it)))
  {
    hide Decode, WellFormed, Render, ItemNumber;
    DecodeOne(DistributionCodec(o), it, d);
    DecodeOne(TaxCodec(o), it, x);
    FieldOfUnknown(DistributionKind, it);
    FieldOfUnknown(TaxKind, it);
  }

  /** A module config keeps nothing of it. */
  lemma UnlistedInModule(it: Item, m: Module)
    requires Unlisted(it, 1)
    ensures Decode(ModuleCodec(), 0, Render(it), m) == Ok(m)
  {
    hide Decode, WellFormed, Render, ItemNumber;
    DecodeOne(ModuleCodec(), it, m);
    FieldOfUnknown(ModuleKind, it);
  }

  /** A delimited field with any number of a newer schema, spelled out. */
  lemma NewerField(o: Options, t: Token, num: nat, b: Bytes)
    requires 13 < num < 0x2000_0000 && |b| < 0x4000_0000_0000_0000
    ensures var field := EncodeVarint(8 * num + 2) + EncodeVarint(|b|) + b;
      Decode(TokenCodec(o), 0, field, t) ==
        Ok(t.(unknown := if o.discardUnknown then t.unknown else t.unknown + field))
    ensures var field := EncodeVarint(8 * num + 2) + EncodeVarint(|b|) + b;
      Decode(ModuleCodec(), 0, field, Module(t.id)) == Ok(Module(t.id))
  {
    hide Decode, EncodeVarint, IsVarint, VarintValue;
    var it := Delimited(EncodeVarint(8 * num + 2), EncodeVarint(|b|), b);
    EncodedIsVarint(8 * num + 2);
    EncodedIsVarint(|b|);
    ScalarShort(8 * num + 2);
    ScalarShort(|b|);
    FieldNumberOf(num, 2);
    UnlistedInToken(o, it, t);
    UnlistedInModule(it, Module(t.id));
  }

  // ---------- writing ----------

  /** The token that has field num of t and nothing else. */
  function Only(t: Token, num: nat): Token {
    match num
    case 1 => EMPTY_TOKEN.(id := t.id)
    case 2 => EMPTY_TOKEN.(name := t.name)
    case 3 => EMPTY_TOKEN.(symbol := t.symbol)
    case 4 => EMPTY_TOKEN.(initialSupply := t.initialSupply)
    case 5 => EMPTY_TOKEN.(totalSupply := t.totalSupply)
    case 6 => EMPTY_TOKEN.(decimals := t.decimals)
    case 7 => EMPTY_TOKEN.(logo := t.logo)
    case 8 => EMPTY_TOKEN.(distributions := t.distributions)
    case 9 => EMPTY_TOKEN.(tax := t.tax)
    case 10 => EMPTY_TOKEN.(creator := t.creator)
    case 11 => EMPTY_TOKEN.(remainingSupply := t.remainingSupply)
    case 12 => EMPTY_TOKEN.(unlimited := t.unlimited)
    case 13 => EMPTY_TOKEN.(minimalDenom := t.minimalDenom)
    case _ => EMPTY_TOKEN
  }

  /** The bytes of one string field: nothing for the empty string. */
  function StringField(num: nat, b: Bytes): Bytes
    requires 0 < num < 16
  {
    if b == [] then [] else [8 * num + 2] + EncodeVarint(|b|) + b
  }

  lemma StringIsPart(num: nat, b: Bytes)
    requires 0 < num < 16
    ensures BytesPart(8 * num + 2, b) == StringField(num, b)
    ensures BytesPart(8 * num + 2, []) == []
  {
  }

  lemma Neutral(a: Bytes)
    ensures [] + a == a == a + []
  {
  }

  lemma TailEmpty(t: Token)
    requires t.creator == [] && t.remainingSupply == [] && !t.unlimited && t.minimalDenom == [] && t.unknown == []
    ensures EncodeFromCreator(t) == []
  {
  }

  lemma MiddleEmpty(t: Token)
    requires t.decimals == 0 && t.logo == [] && t.distributions == [] && t.tax == None && EncodeFromCreator(t) == []
    ensures EncodeFromDecimals(t) == []
  {
    hide EncodeFromCreator;
  }

  /** A token whose first five fields are empty. */
  lemma FrontEmpty(t: Token)
    requires t.id == [] && t.name == [] && t.symbol == [] && t.initialSupply == [] && t.totalSupply == []
    ensures EncodeToken(t) == EncodeFromDecimals(t)
  {
    hide EncodeFromDecimals;
    Neutral(EncodeFromDecimals(t));
  }

  lemma WritesFront(t: Token)
    ensures EncodeToken(Only(t, 1)) == BytesPart(0x0a, t.id)
    ensures EncodeToken(Only(t, 2)) == BytesPart(0x12, t.name)
    ensures EncodeToken(Only(t, 3)) == BytesPart(0x1a, t.symbol)
    ensures EncodeToken(Only(t, 4)) == BytesPart(0x22, t.initialSupply)
    ensures EncodeToken(Only(t, 5)) == BytesPart(0x2a, t.totalSupply)
  {
    forall num: nat | 1 <= num <= 5 ensures EncodeFromDecimals(Only(t, num)) == [] {
      TailEmpty(Only(t, num));
      MiddleEmpty(Only(t, num));
    }
    assert forall tag: byte :: BytesPart(tag, []) == [];
    hide EncodeFromDecimals, BytesPart;
    Neutral(BytesPart(0x0a, t.id));
    Neutral(BytesPart(0x12, t.name));
    Neutral(BytesPart(0x1a, t.symbol));
    Neutral(BytesPart(0x22, t.initialSupply));
    Neutral(BytesPart(0x2a, t.totalSupply));
    Neutral([]);
  }

  /** One part among four, the rest empty. */
  lemma Alone(a: Bytes)
    ensures a + ([] + ([] + ([] + []))) == a
    ensures [] + (a + ([] + ([] + []))) == a
    ensures [] + ([] + (a + ([] + []))) == a
    ensures [] + ([] + ([] + (a + []))) == a
  {
    Neutral(a);
    Neutral([]);
  }

  lemma NoStrings()
    ensures forall tag: byte :: BytesPart(tag, []) == []
    ensures forall tag: byte :: Uint32Part(tag, 0) == [] && BoolPart(tag, false) == []
  {
  }

  lemma MiddleAlone(t: Token, num: nat)
    requires 6 <= num <= 9
    ensures var x := Only(t, num);
      EncodeToken(x) == Uint32Part(0x30, x.decimals) + (BytesPart(0x3a, x.logo) + (
        DistributionsPart(x.distributions) + (TaxPart(x.tax) + [])))
  {
    TailEmpty(Only(t, num));
    FrontEmpty(Only(t, num));
    hide EncodeFromCreator, EncodeToken, BytesPart, Uint32Part, DistributionsPart, TaxPart;
  }

  lemma WritesMiddle(t: Token)
    ensures EncodeToken(Only(t, 6)) == Uint32Part(0x30, t.decimals)
    ensures EncodeToken(Only(t, 7)) == BytesPart(0x3a, t.logo)
    ensures EncodeToken(Only(t, 8)) == DistributionsPart(t.distributions)
    ensures EncodeToken(Only(t, 9)) == TaxPart(t.tax)
  {
    NoStrings();
    NoParts();
    hide EncodeToken, BytesPart, Uint32Part, DistributionsPart, TaxPart;
    MiddleAlone(t, 6);
    Alone(Uint32Part(0x30, t.decimals));
    MiddleAlone(t, 7);
    Alone(BytesPart(0x3a, t.logo));
    MiddleAlone(t, 8);
    Alone(DistributionsPart(t.distributions));
    MiddleAlone(t, 9);
    Alone(TaxPart(t.tax));
  }

  lemma TailAlone(t: Token, num: nat)
    requires 10 <= num <= 13
    ensures var x := Only(t, num);
      EncodeToken(x) == BytesPart(0x52, x.creator) + (BytesPart(0x5a, x.remainingSupply) + (
        BoolPart(0x60, x.unlimited) + (BytesPart(0x6a, x.minimalDenom) + [])))
  {
    FrontEmpty(Only(t, num));
    OnlyTail(Only(t, num));
    hide EncodeToken, BytesPart, BoolPart, EncodeFromDecimals;
  }

  lemma WritesTail(t: Token)
    ensures EncodeToken(Only(t, 10)) == BytesPart(0x52, t.creator)
    ensures EncodeToken(Only(t, 11)) == BytesPart(0x5a, t.remainingSupply)
    ensures EncodeToken(Only(t, 12)) == BoolPart(0x60, t.unlimited)
    ensures EncodeToken(Only(t, 13)) == BytesPart(0x6a, t.minimalDenom)
  {
    NoStrings();
    hide EncodeToken, BytesPart, BoolPart;
    TailAlone(t, 10);
    Alone(BytesPart(0x52, t.creator));
    TailAlone(t, 11);
    Alone(BytesPart(0x5a, t.remainingSupply));
    TailAlone(t, 12);
    Alone(BoolPart(0x60, t.unlimited));
    TailAlone(t, 13);
    Alone(BytesPart(0x6a, t.minimalDenom));
  }

  lemma OnlyTail(t: Token)
    requires t.decimals == 0 && t.logo == [] && t.distributions == [] && t.tax == None
    ensures EncodeFromDecimals(t) == EncodeFromCreator(t)
  {
    hide EncodeFromCreator;
    Neutral(EncodeFromCreator(t));
  }

  /** Each field alone: its number and wire type, and nothing for a default value. */
  lemma TokenWrites(t: Token)
    ensures EncodeToken(EMPTY_TOKEN) == []
    ensures EncodeToken(Only(t, 1)) == StringField(1, t.id)
    ensures EncodeToken(Only(t, 2)) == StringField(2, t.name)
    ensures EncodeToken(Only(t, 3)) == StringField(3, t.symbol)
    ensures EncodeToken(Only(t, 4)) == StringField(4, t.initialSupply)
    ensures EncodeToken(Only(t, 5)) == StringField(5, t.totalSupply)
    ensures EncodeToken(Only(t, 6)) == if t.decimals == 0 then [] else [8 * 6] + EncodeVarint(t.decimals)
    ensures EncodeToken(Only(t, 7)) == StringField(7, t.logo)
    ensures EncodeToken(Only(t, 8)) == DistributionsPart(t.distributions)
    ensures EncodeToken(Only(t, 9)) == TaxPart(t.tax)
    ensures EncodeToken(Only(t, 10)) == StringField(10, t.creator)
    ensures EncodeToken(Only(t, 11)) == StringField(11, t.remainingSupply)
    ensures EncodeToken(Only(t, 12)) == if t.unlimited then [8 * 12, 1] else []
    ensures EncodeToken(Only(t, 13)) == StringField(13, t.minimalDenom)
  {
    TailEmpty(EMPTY_TOKEN);
    MiddleEmpty(EMPTY_TOKEN);
    FrontEmpty(EMPTY_TOKEN);
    WritesFront(t);
    WritesMiddle(t);
    WritesTail(t);
    StringIsPart(1, t.id);
    StringIsPart(2, t.name);
    StringIsPart(3, t.symbol);
    StringIsPart(4, t.initialSupply);
    StringIsPart(5, t.totalSupply);
    StringIsPart(7, t.logo);
    StringIsPart(10, t.creator);
    StringIsPart(11, t.remainingSupply);
    StringIsPart(13, t.minimalDenom);
    hide EncodeVarint, EncodeToken, Only, StringField, BytesPart, DistributionsPart, TaxPart;
  }

  lemma NoParts()
    ensures DistributionsPart([]) == [] && TaxPart(None) == []
  {
  }

  /** The repeated and the nested field, message by message. */
  lemma NestedWrites(d: WalletDistribution, more: seq<WalletDistribution>, x: TokenTax)
    ensures DistributionsPart([d] + more) ==
      [8 * 8 + 2] + EncodeVarint(|EncodeDistribution(d)|) + EncodeDistribution(d) + DistributionsPart(more)
    ensures TaxPart(Some(x)) == [8 * 9 + 2] + EncodeVarint(|EncodeTax(x)|) + EncodeTax(x)
    ensures EncodeDistribution(d) ==
      StringField(1, d.address) + (if d.percent == 0 then [] else [8 * 2] + EncodeVarint(d.percent)) + d.unknown
    ensures EncodeTax(x) == StringField(1, x.percent) + StringField(2, x.recipientAddress) + x.unknown
  {
    assert ([d] + more)[1..] == more;
    Reassociate(StringField(1, d.address), Uint32Part(0x10, d.percent), d.unknown);
    Reassociate(StringField(1, x.percent), StringField(2, x.recipientAddress), x.unknown);
    hide EncodeVarint;
  }

  /** The fields of t from number num on, each as it is written alone, then the
      unknown bytes. */
  function FieldsFrom(t: Token, num: nat): Bytes
    requires 1 <= num <= 14
    decreases 14 - num
  {
    if num == 14 then t.unknown else EncodeToken(Only(t, num)) + FieldsFrom(t, num + 1)
  }

  /** A token is written field by field in the order of the numbers, unknown bytes last. */
  lemma TokenInOrder(t: Token)
    ensures EncodeToken(t) == FieldsFrom(t, 1)
  {
    WritesFront(t);
    WritesMiddle(t);
    WritesTail(t);
    FieldsUnfold(t);
    hide FieldsFrom, Only, BytesPart, Uint32Part, BoolPart, DistributionsPart, TaxPart;
    assert EncodeFromCreator(t) == FieldsFrom(t, 10);
    hide EncodeFromCreator;
    assert EncodeFromDecimals(t) == FieldsFrom(t, 6);
    hide EncodeFromDecimals;
  }

  lemma FieldsUnfold(t: Token)
    ensures FieldsFrom(t, 10) == EncodeToken(Only(t, 10)) + (EncodeToken(Only(t, 11)) + (
              EncodeToken(Only(t, 12)) + (EncodeToken(Only(t, 13)) + t.unknown)))
    ensures FieldsFrom(t, 6) == EncodeToken(Only(t, 6)) + (EncodeToken(Only(t, 7)) + (
              EncodeToken(Only(t, 8)) + (EncodeToken(Only(t, 9)) + FieldsFrom(t, 10))))
    ensures FieldsFrom(t, 1) == EncodeToken(Only(t, 1)) + (EncodeToken(Only(t, 2)) + (EncodeToken(Only(t, 3)) + (
              EncodeToken(Only(t, 4)) + (EncodeToken(Only(t, 5)) + FieldsFrom(t, 6)))))
  {
    hide EncodeToken, Only;
    assert FieldsFrom(t, 14) == t.unknown;
    assert FieldsFrom(t, 12) == EncodeToken(Only(t, 12)) + FieldsFrom(t, 13);
    assert FieldsFrom(t, 8) == EncodeToken(Only(t, 8)) + FieldsFrom(t, 9);
    assert FieldsFrom(t, 3) == EncodeToken(Only(t, 3)) + FieldsFrom(t, 4);
  }

  // ---------- last one wins ----------

  function Held(t: Token, num: int): Bytes
    requires IsString(num)
  {
    match num
    case 1 => t.id
    case 2 => t.name
    case 3 => t.symbol
    case 4 => t.initialSupply
    case 5 => t.totalSupply
    case 7 => t.logo
    case 10 => t.creator
    case 11 => t.remainingSupply
    case _ => t.minimalDenom
  }

  /** The payload of the last field with this number, or what was held before. */
  ghost function LastString(items: seq<Item>, num: int, held: Bytes): Bytes {
    if items == [] then held
    else
      var last := items[|items| - 1];
      if ItemNumber(last) == num && last.Delimited? then last.data else LastString(items[..|items| - 1], num, held)
  }

  ghost function LastVarint(items: seq<Item>, num: int, held: nat): nat {
    if items == [] then held
    else
      var last := items[|items| - 1];
      if ItemNumber(last) == num && last.Scalar? then VarintValue(last.value)
      else LastVarint(items[..|items| - 1], num, held)
  }

  lemma ApplyLast(o: Options, t: Token, it: Item, num: int)
    requires Accepted(TokenKind, it) && ApplyToken(o, t, FieldOf(TokenKind, it)).Ok?
    ensures var t' := ApplyToken(o, t, FieldOf(TokenKind, it)).value;
      && (IsString(num) ==> Held(t', num) == if ItemNumber(it) == num then it.data else Held(t, num))
      && t'.decimals == (if ItemNumber(it) == 6 then VarintValue(it.value) % TWO_32 else t.decimals)
      && t'.unlimited == (if ItemNumber(it) == 12 then VarintValue(it.value) != 0 else t.unlimited)
    ensures IsString(ItemNumber(it)) ==> it.Delimited?
    ensures ItemNumber(it) in {6, 12} ==> it.Scalar?
  {
    hide Decode, ItemNumber, VarintValue, WellFormed, Render;
  }

  /** "Last one wins" for a token: however its fields come, every string field ends as
      the payload of the last field with its number, Decimals and Unlimited as the
      value of the last one with theirs. */
  lemma {:induction false} TokenLastWins(o: Options, items: seq<Item>, t: Token, num: int)
    requires AllAccepted(TokenKind, items) && Fold(TokenCodec(o), items, t).Ok?
    ensures var t' := Fold(TokenCodec(o), items, t).value;
      && (IsString(num) ==> Held(t', num) == LastString(items, num, Held(t, num)))
      && (t.decimals < TWO_32 ==> t'.decimals == LastVarint(items, 6, t.decimals) % TWO_32)
      && t'.unlimited == (LastVarint(items, 12, if t.unlimited then 1 else 0) != 0)
    decreases |items|
  {
    hide Accepted, ApplyToken, FieldOf, Held, VarintValue, ItemNumber;
    if items != [] {
      var init, last := items[..|items| - 1], items[|items| - 1];
      assert items == init + [last] && last in items;
      FoldAppend(TokenCodec(o), init, [last], t);
      var mid := Fold(TokenCodec(o), init, t).value;
      FoldOne(TokenCodec(o), last, mid);
      TokenLastWins(o, init, t, num);
      ApplyLast(o, mid, last, num);
    }
  }

  lemma FoldOne<M>(c: Codec<M>, it: Item, m: M)
    requires Accepted(c.kind, it)
    ensures AllAccepted(c.kind, [it]) && Fold(c, [it], m) == c.apply(m, FieldOf(c.kind, it))
  {
    hide Accepted, FieldOf;
    if c.apply(m, FieldOf(c.kind, it)).Ok? {
      assert [it][1..] == [];
      assert Fold(c, [it][1..], c.apply(m, FieldOf(c.kind, it)).value) == Ok(c.apply(m, FieldOf(c.kind, it)).value);
    }
  }
}
